/** The file-backed queue of the Linux client: items are files named by ascending numbers,
    cached in a map, with two semaphores that wake writers and readers. */
module FileStore {
  import opened Wrappers
  import opened QueueSpec

  /** The items of m at the indices lo up to hi, in ascending order. */
  function Fifo<T>(m: map<nat, T>, lo: nat, hi: nat): seq<T>
    decreases hi - lo
  {
    if lo >= hi then [] else (if lo in m then [m[lo]] else []) + Fifo(m, lo + 1, hi)
  }

  ghost predicate Within<T>(m: map<nat, T>, lo: nat, hi: nat) {
    forall k :: k in m ==> lo <= k < hi
  }

  lemma {:induction false} FifoSkip<T>(m: map<nat, T>, lo: nat, a: nat, hi: nat)
    requires lo <= a && forall k :: lo <= k < a ==> k !in m
    requires Within(m, 0, hi)
    ensures Fifo(m, lo, hi) == Fifo(m, a, hi)
    decreases a - lo
  {
    if lo < a {
      FifoSkip(m, lo + 1, a, hi);
      if lo >= hi {
        FifoEmpty(m, a, hi);
      }
    }
  }

  lemma FifoEmpty<T>(m: map<nat, T>, lo: nat, hi: nat)
    requires lo >= hi
    ensures Fifo(m, lo, hi) == []
  {
  }

  lemma {:induction false} FifoRaise<T>(m: map<nat, T>, lo: nat, hi: nat, top: nat)
    requires Within(m, 0, hi) && hi <= top
    ensures Fifo(m, lo, top) == Fifo(m, lo, hi)
    decreases top - lo
  {
    if lo < top {
      FifoRaise(m, lo + 1, hi, top);
    }
  }

  /** The sequence does not depend on the bounds it is read with. */
  lemma FifoBounds<T>(m: map<nat, T>, lo: nat, hi: nat, lo': nat, hi': nat)
    requires Within(m, lo, hi) && Within(m, lo', hi')
    ensures Fifo(m, lo, hi) == Fifo(m, lo', hi')
  {
    FifoSkip(m, 0, lo, hi);
    FifoSkip(m, 0, lo', hi');
    if hi <= hi' {
      FifoRaise(m, 0, hi, hi');
    } else {
      FifoRaise(m, 0, hi', hi);
    }
  }

  lemma {:induction false} FifoPush<T>(m: map<nat, T>, lo: nat, hi: nat, x: T)
    requires Within(m, 0, hi) && lo <= hi
    ensures Fifo(m[hi := x], lo, hi + 1) == Fifo(m, lo, hi) + [x]
    decreases hi - lo
  {
    if lo < hi {
      FifoPush(m, lo + 1, hi, x);
    } else {
      assert Fifo(m[hi := x], hi + 1, hi + 1) == [];
    }
  }

  lemma {:induction false} FifoAgree<T>(m: map<nat, T>, n: map<nat, T>, lo: nat, hi: nat)
    requires forall k :: k >= lo ==> (k in m <==> k in n) && (k in m ==> m[k] == n[k])
    ensures Fifo(m, lo, hi) == Fifo(n, lo, hi)
    decreases hi - lo
  {
    if lo < hi {
      FifoAgree(m, n, lo + 1, hi);
    }
  }

  /** f is the least index of m. */
  ghost predicate IsFront<T>(m: map<nat, T>, f: nat) {
    f in m && forall k :: k in m ==> f <= k
  }

  lemma FifoPop<T>(m: map<nat, T>, lo: nat, hi: nat, f: nat)
    requires Within(m, lo, hi) && IsFront(m, f)
    ensures var s := Fifo(m, lo, hi); s != [] && s[0] == m[f] && Fifo(m - {f}, f + 1, hi) == s[1..]
  {
    FifoSkip(m, lo, f, hi);
    FifoAgree(m, m - {f}, f + 1, hi);
  }

  lemma LeastKey<T>(m: map<nat, T>, lo: nat, hi: nat) returns (f: nat)
    requires Within(m, lo, hi) && m != map[]
    ensures IsFront(m, f)
    decreases hi - lo
  {
    if lo in m {
      f := lo;
    } else {
      var k :| k in m;
      f := LeastKey(m, lo + 1, hi);
    }
  }

  lemma {:induction false} FifoLength<T>(m: map<nat, T>, lo: nat, hi: nat)
    requires Within(m, lo, hi)
    ensures |Fifo(m, lo, hi)| == |m|
    decreases |m|
  {
    if m == map[] {
      FifoAgree(m, m, lo, hi);
      NoKeys(m, lo, hi);
    } else {
      var f := LeastKey(m, lo, hi);
      FifoPop(m, lo, hi, f);
      assert |(m - {f}).Keys| == |m.Keys - {f}| by {
        assert (m - {f}).Keys == m.Keys - {f};
      }
      assert |m - {f}| == |m| - 1;
      FifoLength(m - {f}, f + 1, hi);
    }
  }

  lemma {:induction false} NoKeys<T>(m: map<nat, T>, lo: nat, hi: nat)
    requires m == map[]
    ensures Fifo(m, lo, hi) == []
    decreases hi - lo
  {
    if lo < hi {
      NoKeys(m, lo + 1, hi);
    }
  }

  /** Some bound above every index. */
  ghost function Top<T>(m: map<nat, T>): (top: nat)
    ensures Within(m, 0, top)
  {
    if m == map[] then 0 else
      var k :| k in m;
      assert forall j :: j in m ==> j == k || j in m - {k};
      var t := Top(m - {k});
      if t <= k then k + 1 else t
  }

  /** The queue stored in a directory: its items by ascending file number. */
  ghost function Stored<T>(files: map<nat, T>): seq<T> {
    Fifo(files, 0, Top(files))
  }

  /** The directory that holds the files; it outlives the process. */
  class ItemDir<T> {
    var files: map<nat, T>

    constructor ()
      ensures files == map[]
    {
      files := map[];
    }

    method Write(idx: nat, item: T)
      modifies this
      ensures files == old(files)[idx := item]
    {
      files := files[idx := item];
    }

    /** Removing a missing file is not an error. */
    method Remove(idx: nat)
      modifies this
      ensures files == old(files) - {idx}
    {
      files := files - {idx};
    }
  }

  /** A counting semaphore; releasing more than is held would abort the process. */
  class Semaphore {
    const size: nat
    var held: nat

    ghost predicate Valid() reads this { held <= size }

    function Free(): int reads this { size - held }

    constructor (size: nat)
      ensures Valid() && this.size == size && held == 0
    {
      this.size, held := size, 0;
    }

    method TryAcquire() returns (ok: bool)
      requires Valid()
      modifies this
      ensures Valid() && ok == (old(held) < size) && held == old(held) + if ok then 1 else 0
    {
      ok := held < size;
      if ok {
        held := held + 1;
      }
    }

    method Release()
      requires Valid() && held > 0
      modifies this
      ensures Valid() && held == old(held) - 1
    {
      held := held - 1;
    }
  }

  datatype StoreError = StoreFull | StoreEmpty | CannotQueueNil | Cancelled

  class FileStore<T(==)> {
    const dir: ItemDir<T>
    var itemsByIdx: map<nat, T>
    var readIdx: nat
    var writeIdx: nat
    var capacity: nat
    var availableSlots: Semaphore
    var availableItems: Semaphore

    ghost var writers: nat  // callers that acquired a slot and did not push yet
    ghost var readers: nat  // callers that acquired an item and did not pop yet

    ghost predicate Shaped()
      reads this, dir, availableSlots, availableItems
    {
      && availableSlots != availableItems
      && availableSlots.Valid() && availableItems.Valid()
      && availableSlots.size == capacity && availableItems.size == capacity
      && Within(itemsByIdx, readIdx, writeIdx) && readIdx <= writeIdx
    }

    /** The state as its users see it. */
    ghost function View(): Queue<T>
      requires Shaped()
      reads this, dir, availableSlots, availableItems
    {
      Queue(Stored(dir.files), Fifo(itemsByIdx, readIdx, writeIdx), capacity, availableSlots.Free(), availableItems.Free())
    }

    /** Between operations disk and memory agree and the semaphores add up. */
    ghost predicate Valid()
      reads this, dir, availableSlots, availableItems
    {
      Shaped() && dir.files == itemsByIdx && View().disk == View().mem && View().Balanced(writers, readers)
    }

    lemma ViewAgrees()
      requires Shaped() && dir.files == itemsByIdx
      ensures View().disk == View().mem && |View().mem| == |itemsByIdx|
      ensures View().mem == [] <==> itemsByIdx == map[]
    {
      FifoBounds(itemsByIdx, readIdx, writeIdx, 0, Top(itemsByIdx));
      FifoLength(itemsByIdx, readIdx, writeIdx);
    }

    constructor (dir: ItemDir<T>, capacity: nat)
      ensures Valid() && this.dir == dir && dir.files == old(dir.files)
      ensures fresh(availableSlots) && fresh(availableItems)
      ensures View() == Started(Stored(dir.files), capacity)
      ensures this.capacity == (if |dir.files| <= capacity then capacity else |dir.files|)
      ensures View().slots == this.capacity - |dir.files| && View().items == |dir.files| == |View().mem|
      ensures writers == 0 && readers == 0
    {
      this.dir := dir;
      this.capacity, itemsByIdx, readIdx, writeIdx := capacity, map[], 0, 0;
      availableSlots := new Semaphore(capacity);
      availableItems := new Semaphore(capacity);
      new;
      Reload();
    }

    /** Reads all files back in. */
    method LoadItems() returns (items: map<nat, T>)
      ensures items == dir.files
    {
      items := map[];
      var rest := dir.files.Keys;
      while rest != {}
        invariant rest <= dir.files.Keys
        invariant items.Keys == dir.files.Keys - rest && forall k :: k in items ==> items[k] == dir.files[k]
        decreases rest
      {
        var idx :| idx in rest;
        items := items[idx := dir.files[idx]];
        rest := rest - {idx};
      }
    }

    /** The least and the greatest index, or -1 when there is none. */
    static method MinMax(items: map<nat, T>) returns (minIdx: int, maxIdx: int)
      ensures items == map[] ==> minIdx == maxIdx == -1
      ensures items != map[] ==> minIdx in items && maxIdx in items && forall k :: k in items ==> minIdx <= k <= maxIdx
    {
      minIdx, maxIdx := -1, -1;
      var rest := items.Keys;
      while rest != {}
        invariant rest <= items.Keys
        invariant rest == items.Keys ==> minIdx == maxIdx == -1
        invariant rest != items.Keys ==> minIdx in items && maxIdx in items
        invariant forall k :: k in items && k !in rest ==> minIdx <= k <= maxIdx
        decreases rest
      {
        var idx :| idx in rest;
        rest := rest - {idx};
        if minIdx == -1 || idx < minIdx {
          minIdx := idx;
        }
        if maxIdx == -1 || idx > maxIdx {
          maxIdx := idx;
        }
      }
      assert items == map[] <==> items.Keys == {};
    }

    /** A semaphore of the given size with `taken` of it acquired. */
    static method NewSemaphore(size: nat, taken: nat) returns (s: Semaphore)
      requires taken <= size
      ensures fresh(s) && s.Valid() && s.size == size && s.held == taken
    {
      s := new Semaphore(size);
      for i := 0 to taken
        invariant s.Valid() && s.held == i
      {
        var ok := s.TryAcquire();
      }
    }

    /** A semaphore of which all but `count` is acquired: first everything is, then that many are
        released. */
    static method NewItemSemaphore(size: nat, count: nat) returns (s: Semaphore)
      requires count <= size
      ensures fresh(s) && s.Valid() && s.size == size && s.held == size - count
    {
      s := NewSemaphore(size, size);
      for i := 0 to count
        invariant s.Valid() && s.held == size - i
      {
        s.Release();
      }
    }

    method Reload()
      modifies this
      ensures Valid() && writers == 0 && readers == 0
      ensures fresh(availableSlots) && fresh(availableItems)
      ensures View() == Started(Stored(dir.files), old(capacity))
      ensures capacity == (if |dir.files| <= old(capacity) then old(capacity) else |dir.files|)
      ensures View().slots == capacity - |dir.files| && View().items == |dir.files| == |View().mem|
    {
      var items := LoadItems();
      if capacity < |items| {
        capacity := |items|;
      }
      var minIdx, maxIdx := MinMax(items);
      if minIdx == -1 {
        writeIdx, readIdx := 0, 0;
      } else {
        writeIdx, readIdx := maxIdx + 1, minIdx;
      }
      itemsByIdx := items;
      availableSlots := NewSemaphore(capacity, |items|);
      availableItems := NewItemSemaphore(capacity, |items|);
      writers, readers := 0, 0;
      ViewAgrees();
    }

    /** Searches upwards from the read index for the front item. */
    method GetFrontItemIndex() returns (front: Option<nat>)
      requires Shaped()
      ensures front.None? <==> itemsByIdx == map[]
      ensures front.Some? ==> IsFront(itemsByIdx, front.value)
    {
      if itemsByIdx == map[] {
        return None;
      }
      var cur := readIdx;
      ghost var some :| some in itemsByIdx;
      while cur !in itemsByIdx
        invariant readIdx <= cur <= some
        invariant forall k :: k in itemsByIdx ==> cur <= k
        decreases some - cur
      {
        cur := cur + 1;
      }
      return Some(cur);
    }

    /** Between the steps of a push: the item is the last one on disk, and not in memory yet. */
    ghost predicate Pushing(item: T)
      reads this, dir, availableSlots, availableItems
    {
      && Shaped() && dir.files == itemsByIdx[writeIdx := item] && writers > 0
      && View().disk == View().mem + [item] && View().Balanced(writers, readers)
    }

    /** Between the steps of a pop: the front item is gone on disk, but still in memory. */
    ghost predicate Popping(front: nat)
      reads this, dir, availableSlots, availableItems
    {
      && Shaped() && IsFront(itemsByIdx, front) && dir.files == itemsByIdx - {front} && readers > 0
      && View().mem != [] && View().mem[0] == itemsByIdx[front]
      && View().disk == View().mem[1..] && View().Balanced(writers, readers)
    }

    /** The file step of a push. */
    method WriteFile(item: T)
      requires Valid() && writers > 0
      modifies dir
      ensures Pushing(item) && View() == old(View()).PutFile(item)
    {
      FifoBounds(itemsByIdx, readIdx, writeIdx, 0, Top(dir.files));
      FifoPush(itemsByIdx, readIdx, writeIdx, item);
      dir.Write(writeIdx, item);
      FifoBounds(dir.files, readIdx, writeIdx + 1, 0, Top(dir.files));
    }

    /** The memory step of a push; it wakes a reader. */
    method KeepItem(item: T)
      requires Pushing(item)
      modifies this`itemsByIdx, this`writeIdx, this`writers, availableItems
      ensures Valid() && View() == old(View()).PutItem(item) && writers == old(writers) - 1
    {
      FifoPush(itemsByIdx, readIdx, writeIdx, item);
      itemsByIdx := itemsByIdx[writeIdx := item];
      writeIdx := writeIdx + 1;
      availableItems.Release();
      writers := writers - 1;
    }

    /** The file step of a pop. */
    method RemoveFile(front: nat)
      requires Valid() && readers > 0 && IsFront(itemsByIdx, front)
      modifies dir
      ensures Popping(front) && old(View()).disk != [] && View() == old(View()).DropFile()
    {
      FifoBounds(itemsByIdx, readIdx, writeIdx, 0, Top(dir.files));
      FifoPop(itemsByIdx, readIdx, writeIdx, front);
      dir.Remove(front);
      FifoBounds(dir.files, front + 1, writeIdx, 0, Top(dir.files));
    }

    /** The memory step of a pop; it wakes a writer. */
    method DropItem(front: nat)
      requires Popping(front)
      modifies this`itemsByIdx, this`readIdx, this`readers, availableSlots
      ensures Valid() && View() == old(View()).DropItem() && readers == old(readers) - 1
    {
      FifoPop(itemsByIdx, readIdx, writeIdx, front);
      itemsByIdx := itemsByIdx - {front};
      readIdx := front + 1;
      availableSlots.Release();
      readers := readers - 1;
    }

    /** Appends an item for a caller that acquired a slot; nil is refused, and its slot is lost. */
    method PushItemToBack(item: Option<T>) returns (err: Option<StoreError>)
      requires Valid() && writers > 0
      modifies this, dir, availableItems
      ensures Valid() && Kept()
      ensures item.None? ==> err == Some(CannotQueueNil) && View() == old(View()) && writers == old(writers)
      ensures item.Some? ==> err.None? && View() == old(View()).PutFile(item.value).PutItem(item.value) && writers == old(writers) - 1
      ensures readers == old(readers)
    {
      if item.None? {
        return Some(CannotQueueNil);
      }
      ViewAgrees();
      if |itemsByIdx| > capacity {
        assert false;
        return Some(StoreFull);
      }
      WriteFile(item.value);
      KeepItem(item.value);
      err := None;
    }

    /** The parts of the store that only a reload replaces. */
    twostate predicate Kept()
      reads this
    {
      capacity == old(capacity) && availableSlots == old(availableSlots) && availableItems == old(availableItems)
    }

    /** Removes the front item for a caller that acquired an item. */
    method PopFrontItem() returns (item: Option<T>)
      requires Valid() && readers > 0
      modifies this, dir, availableSlots
      ensures Valid() && Kept()
      ensures old(View()).mem != [] && item == Some(old(View()).mem[0])
      ensures View() == old(View()).DropFile().DropItem()
      ensures readers == old(readers) - 1 && writers == old(writers)
    {
      ViewAgrees();
      var front := GetFrontItemIndex();
      if front.None? {
        return None;
      }
      item := Some(itemsByIdx[front.value]);
      RemoveFile(front.value);
      DropItem(front.value);
    }

    method PeekFrontItem() returns (item: Option<T>)
      requires Valid()
      ensures View().mem == [] ==> item == None
      ensures View().mem != [] ==> item == Some(View().mem[0])
    {
      ViewAgrees();
      if |itemsByIdx| == 0 {
        return None;
      }
      var front := GetFrontItemIndex();
      if front.None? {
        return None;
      }
      FifoPop(itemsByIdx, readIdx, writeIdx, front.value);
      return Some(itemsByIdx[front.value]);
    }

    /** Blocks until a slot is free (`granted`) or the caller's context is cancelled. */
    method Enqueue(item: Option<T>, granted: bool) returns (err: Option<StoreError>)
      requires Valid() && (granted ==> availableSlots.Free() > 0)
      modifies this, dir, availableSlots, availableItems
      ensures Valid() && Kept() && readers == old(readers)
      ensures !granted ==> err == Some(Cancelled) && View() == old(View()) && writers == old(writers)
      ensures granted && item.None? ==> err == Some(CannotQueueNil) && View() == old(View()).TakeSlot() && writers == old(writers) + 1
      ensures granted && item.Some? ==>
                err.None? && View() == old(View()).TakeSlot().PutFile(item.value).PutItem(item.value) && writers == old(writers)
    {
      if !granted {
        return Some(Cancelled);
      }
      err := TryEnqueue(item);
    }

    /** Fails at once when no slot is free. */
    method TryEnqueue(item: Option<T>) returns (err: Option<StoreError>)
      requires Valid()
      modifies this, dir, availableSlots, availableItems
      ensures Valid() && Kept() && readers == old(readers)
      ensures err == Some(StoreFull) <==> old(View()).slots == 0
      ensures err.None? ==>
                && item.Some? && View().mem == old(View()).mem + [item.value] && View().disk == old(View()).disk + [item.value]
                && View().slots == old(View()).slots - 1 && View().items == old(View()).items + 1
      ensures err == Some(StoreFull) ==> View() == old(View()) && writers == old(writers)
      ensures old(View()).slots > 0 && item.None? ==>
                err == Some(CannotQueueNil) && View() == old(View()).TakeSlot() && writers == old(writers) + 1
      ensures old(View()).slots > 0 && item.Some? ==>
                err.None? && View() == old(View()).TakeSlot().PutFile(item.value).PutItem(item.value) && writers == old(writers)
    {
      var ok := availableSlots.TryAcquire();
      if !ok {
        return Some(StoreFull);
      }
      writers := writers + 1;
      err := PushItemToBack(item);
    }

    /** Waits for an item without removing it; to be followed by Peek and Pop. */
    method WaitNonEmpty(granted: bool) returns (err: Option<StoreError>)
      requires Valid() && (granted ==> availableItems.Free() > 0)
      modifies this, availableItems
      ensures Valid() && Kept() && writers == old(writers)
      ensures !granted ==> err == Some(Cancelled) && View() == old(View()) && readers == old(readers)
      ensures granted ==> err.None? && View() == old(View()).TakeItem() && View().mem != [] && readers == old(readers) + 1
    {
      if !granted {
        return Some(Cancelled);
      }
      var ok := availableItems.TryAcquire();
      readers := readers + 1;
      err := None;
    }

    method Dequeue(granted: bool) returns (item: Option<T>, err: Option<StoreError>)
      requires Valid() && (granted ==> availableItems.Free() > 0)
      modifies this, dir, availableSlots, availableItems
      ensures Valid() && Kept() && writers == old(writers) && readers == old(readers)
      ensures !granted ==> err == Some(Cancelled) && item.None? && View() == old(View())
      ensures granted ==>
                && err.None? && old(View()).mem != [] && item == Some(old(View()).mem[0])
                && View() == old(View()).TakeItem().DropFile().DropItem()
    {
      err := WaitNonEmpty(granted);
      if err.Some? {
        return None, err;
      }
      ViewAgrees();
      item := PopFrontItem();
    }

    /** Fails at once when no item is available. */
    method TryDequeue() returns (item: Option<T>, err: Option<StoreError>)
      requires Valid()
      modifies this, dir, availableSlots, availableItems
      ensures Valid() && Kept() && writers == old(writers) && readers == old(readers)
      ensures err == Some(StoreEmpty) <==> old(View()).items == 0
      ensures err.None? ==>
                && item.Some? && old(View()).mem == [item.value] + View().mem && old(View()).disk == [item.value] + View().disk
                && View().slots == old(View()).slots + 1 && View().items == old(View()).items - 1
      ensures err.Some? ==> err == Some(StoreEmpty) && item.None? && View() == old(View())
      ensures err.None? ==>
                && old(View()).mem != [] && item == Some(old(View()).mem[0])
                && View() == old(View()).TakeItem().DropFile().DropItem()
    {
      if availableItems.held == availableItems.size {
        return None, Some(StoreEmpty);
      }
      item, err := Dequeue(true);
    }

    /** Removes the front item for a caller that waited for it; it is there. */
    method Pop() returns (err: Option<StoreError>)
      requires Valid() && readers > 0
      modifies this, dir, availableSlots
      ensures Valid() && Kept() && writers == old(writers) && readers == old(readers) - 1
      ensures err.None? && old(View()).mem != [] && View() == old(View()).DropFile().DropItem()
    {
      ViewAgrees();
      var item := PopFrontItem();
      err := if item.None? then Some(StoreEmpty) else None;
    }
  }
}
