/** The ring buffer of pending commands (src/command.c). */
module CommandQueue {
  import opened Options

  const MAX_COMMANDS_PENDING: nat := 10

  /** queue_push on the represented queue. */
  function Push<T>(q: seq<T>, x: T): seq<T> {
    if |q| == MAX_COMMANDS_PENDING then q else q + [x]
  }

  class CommandQueue<T(0)> {
    var items: array<T>
    var head: nat
    var tail: nat
    var count: nat

    ghost predicate Valid()
      reads this
    {
      && items.Length == MAX_COMMANDS_PENDING
      && head < MAX_COMMANDS_PENDING && count <= MAX_COMMANDS_PENDING
      && tail == (head + count) % MAX_COMMANDS_PENDING
    }

    /** The queued commands, the next one to leave first. */
    ghost function Contents(): (q: seq<T>)
      reads this, items
      requires Valid()
      ensures |q| == count
    {
      seq(count, i requires 0 <= i < count && Valid() reads this, items => items[(head + i) % MAX_COMMANDS_PENDING])
    }

    /** queue_init */
    constructor ()
      ensures Valid() && Contents() == [] && fresh(items)
    {
      items := new T[MAX_COMMANDS_PENDING];
      head, tail, count := 0, 0, 0;
    }

    /** queue_push */
    method PushCommand(cmd: T) returns (ok: bool)
      requires Valid()
      modifies this`tail, this`count, items
      ensures Valid() && items == old(items)
      ensures ok <==> |old(Contents())| < MAX_COMMANDS_PENDING
      ensures Contents() == Push(old(Contents()), cmd)
    {
      if count == MAX_COMMANDS_PENDING {
        return false;
      }
      items[tail] := cmd;
      tail := (tail + 1) % MAX_COMMANDS_PENDING;
      count := count + 1;
      ok := true;
    }

    /** queue_pop */
    method PopCommand() returns (cmd: Option<T>)
      requires Valid()
      modifies this`head, this`count
      ensures Valid()
      ensures cmd.Some? <==> old(Contents()) != []
      ensures if cmd.Some? then old(Contents()) == [cmd.value] + Contents() else Contents() == old(Contents())
    {
      if count == 0 {
        return None;
      }
      cmd := Some(items[head]);
      head := (head + 1) % MAX_COMMANDS_PENDING;
      count := count - 1;
    }
  }
}
