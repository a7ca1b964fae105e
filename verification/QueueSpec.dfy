/** What a disk-backed bounded queue is for its users: two copies of one sequence and two
    counters.  Every change is made in two steps, first on disk and then in memory, and a
    crash may come between them. */
module QueueSpec {
  datatype Queue<T> = Queue(
    disk: seq<T>,   // the items stored as files, oldest first
    mem: seq<T>,    // the items the running process knows about
    capacity: nat,
    slots: nat,     // free slots a writer may still acquire
    items: nat)     // items a reader may still acquire
  {
    function TakeSlot(): Queue<T>
      requires slots > 0
    {
      this.(slots := slots - 1)
    }

    function TakeItem(): Queue<T>
      requires items > 0
    {
      this.(items := items - 1)
    }

    function PutFile(x: T): Queue<T> { this.(disk := disk + [x]) }

    function PutItem(x: T): Queue<T> { this.(mem := mem + [x], items := items + 1) }

    function DropFile(): Queue<T>
      requires disk != []
    {
      this.(disk := disk[1..])
    }

    function DropItem(): Queue<T>
      requires mem != []
    {
      this.(mem := mem[1..], slots := slots + 1)
    }

    /** The counters add up: `writers` hold a slot they have not used yet, and `readers` an
        item they have not removed yet. */
    predicate Balanced(writers: nat, readers: nat) {
      slots + |mem| + writers == capacity && items + readers == |mem|
    }
  }

  /** A start reads everything back from disk; a capacity below the count is raised. */
  function Started<T>(disk: seq<T>, capacity: nat): Queue<T> {
    var c := if capacity < |disk| then |disk| else capacity;
    Queue(disk, disk, c, c - |disk|, |disk|)
  }

  /** Both counters stay within the capacity, so that no release ever overruns. */
  lemma BalancedBounds<T>(q: Queue<T>, writers: nat, readers: nat)
    requires q.Balanced(writers, readers)
    ensures q.slots <= q.capacity && q.items <= q.capacity && |q.mem| <= q.capacity
    ensures writers > 0 ==> |q.mem| < q.capacity && q.items < q.capacity
    ensures readers > 0 ==> q.mem != [] && q.slots < q.capacity
  {
  }

  /** What a user asks of a queue that nobody waits for. */
  datatype Op<T> = Push(item: T) | Pop

  /** The items after an operation: a push fails on a full queue, a pop on an empty one. */
  function Effect<T>(q: seq<T>, capacity: nat, op: Op<T>): seq<T> {
    match op
    case Push(x) => if |q| < capacity then q + [x] else q
    case Pop => if q == [] then [] else q[1..]
  }

  function After<T>(q: seq<T>, capacity: nat, ops: seq<Op<T>>): seq<T>
    decreases |ops|
  {
    if ops == [] then q else After(Effect(q, capacity, ops[0]), capacity, ops[1..])
  }

  /** Two rows of operations follow each other, and the queue never exceeds its capacity. */
  lemma {:induction false} AfterConcat<T>(q: seq<T>, capacity: nat, a: seq<Op<T>>, b: seq<Op<T>>)
    requires |q| <= capacity
    ensures After(q, capacity, a + b) == After(After(q, capacity, a), capacity, b)
    ensures |After(q, capacity, a)| <= capacity
    decreases |a|
  {
    if a == [] {
      assert a + b == b;
    } else {
      assert (a + b)[1..] == a[1..] + b;
      AfterConcat(Effect(q, capacity, a[0]), capacity, a[1..], b);
    }
  }
}
