/** The retain/release pool of command buffers (FB/VMCommandBuffer.cpp:15-53, 101-242, 260-379). */
module CommandBufferPool {
  import opened Words

  datatype Status = Success | Busy | NotPermitted | NoSpace | NoMemory

  datatype State = Initial | Recording | Executable | Pending | Invalid

  datatype Kind = Draw | Dispatch

  datatype Command = Command(kind: Kind, sequence: nat, payload: seq<word>)

  datatype Binding = Binding(point: word, resource: word, kind: word)

  const MAX_COMMANDS := 256
  const DESCRIPTOR_SIZE := 16

  class CommandBuffer {
    var refCount: nat
    var state: State
    var commands: seq<Command>
    var commandCount: nat
    var currentSize: nat
    var resources: seq<Binding>

    /** Commands are numbered in order, and count and size follow them. */
    ghost predicate Valid()
      reads this
    {
      && commandCount == |commands| <= MAX_COMMANDS && currentSize == DESCRIPTOR_SIZE * commandCount
      && forall i | 0 <= i < |commands| :: commands[i].sequence == i
    }

    /** As a new buffer is. */
    ghost predicate Clean()
      reads this
    {
      state == Initial && commands == [] && commandCount == 0 && currentSize == 0 && resources == []
    }

    constructor ()
      ensures Valid() && Clean() && refCount == 1
    {
      refCount, state, commands, commandCount, currentSize, resources := 1, Initial, [], 0, 0, [];
    }

    method Retain()
      modifies this`refCount
      ensures refCount == old(refCount) + 1
    {
      refCount := refCount + 1;
    }

    method Release()
      requires refCount > 0
      modifies this`refCount
      ensures refCount == old(refCount) - 1
    {
      refCount := refCount - 1;
    }

    /** A pending buffer is left as it is. */
    method Reset() returns (status: Status)
      requires Valid()
      modifies this`state, this`commands, this`commandCount, this`currentSize, this`resources
      ensures Valid() && (status == Busy <==> old(state) == Pending)
      ensures status == Busy ==> unchanged(this)
      ensures status != Busy ==> status == Success && Clean()
    {
      if state == Pending { return Busy; }
      while |commands| > 0
        decreases |commands|
      {
        commands := commands[1..];
      }
      resources := [];
      currentSize, commandCount, state := 0, 0, Initial;
      status := Success;
    }

    /** addDrawCommand and addComputeCommand; payload is the descriptor's four words. */
    method AddCommand(kind: Kind, payload: seq<word>, memory: bool) returns (status: Status)
      requires Valid()
      modifies this`commands, this`commandCount, this`currentSize
      ensures Valid()
      ensures status == if state != Initial then NotPermitted
                        else if old(|commands|) >= MAX_COMMANDS then NoSpace
                        else if !memory then NoMemory else Success
      ensures commands == old(commands) + if status == Success then [Command(kind, |old(commands)|, payload)] else []
    {
      if state != Initial { return NotPermitted; }
      if commandCount >= MAX_COMMANDS { return NoSpace; }
      if !memory { return NoMemory; }
      commands := commands + [Command(kind, commandCount, payload)];
      commandCount := commandCount + 1;
      currentSize := currentSize + DESCRIPTOR_SIZE;
      status := Success;
    }

    method AddResourceBinding(b: Binding, memory: bool) returns (status: Status)
      modifies this`resources
      ensures status == if state != Initial then NotPermitted else if !memory then NoMemory else Success
      ensures resources == old(resources) + if status == Success then [b] else []
    {
      if state != Initial { return NotPermitted; }
      if !memory { return NoMemory; }
      resources := resources + [b];
      status := Success;
    }
  }

  /** No buffer twice. */
  ghost predicate Distinct(s: seq<CommandBuffer>) {
    forall i, j | 0 <= i < j < |s| :: s[i] != s[j]
  }

  class Pool {
    const maxBuffers: word
    var available: seq<CommandBuffer>
    var active: seq<CommandBuffer>
    /** How many buffers the pool has ever created. */
    ghost var created: nat

    /** Each buffer created is in exactly one list, once; the list holds one reference to it and, while it
        is active, its holder another. Waiting buffers are clean unless they came back pending. */
    ghost predicate Valid()
      reads this, available, active
    {
      && Distinct(available + active) && created == |available| + |active| <= maxBuffers
      && (forall b <- available :: b.refCount == 1 && b.Valid() && (b.Clean() || b.state == Pending))
      && (forall b <- active :: b.refCount == 2 && b.Valid())
    }

    constructor (maxBuffers: word)
      ensures Valid() && available == [] && active == [] && this.maxBuffers == maxBuffers
    {
      this.maxBuffers := maxBuffers;
      available, active, created := [], [], 0;
    }

    /** Succeeds exactly while fewer than the maximum are active, memory permitting; hands out the buffer
        waiting longest, and a clean one unless that buffer came back pending. */
    method AllocateCommandBuffer(memory: bool) returns (status: Status, buffer: Option<CommandBuffer>)
      requires Valid()
      modifies this, if available != [] then {available[0]} else {}
      ensures Valid()
      ensures status == if |old(active)| < maxBuffers && (old(available) != [] || memory) then Success else NoSpace
      ensures status == NoSpace ==> buffer.None? && available == old(available) && active == old(active)
      ensures status == Success ==> buffer.Some? && active == old(active) + [buffer.value]
      ensures status == Success && old(available) == [] ==>
                available == [] && fresh(buffer.value) && created == old(created) + 1 && buffer.value.Clean()
      ensures status == Success && old(available) != [] ==>
                && buffer.value == old(available)[0] && available == old(available)[1..] && created == old(created)
                && (buffer.value.Clean() <==> old(available[0].state) != Pending)
    {
      if |available| > 0 {
        buffer := Some(available[0]);
        Reuse(available[0]);
        status := Success;
      } else if |active| < maxBuffers && memory {
        var b := CreateActive();
        return Success, Some(b);
      } else {
        return NoSpace, None;
      }
    }

    /** Move the first waiting buffer to the active ones. */
    method Reuse(b: CommandBuffer)
      requires Valid() && available != [] && b == available[0]
      modifies this, b`refCount
      ensures Valid() && created == old(created)
      ensures available == old(available)[1..] && active == old(active) + [old(available)[0]]
    {
      FirstToLast(available, active);
      b.Retain();
      available := available[1..];
      b.Release();
      active := active + [b];
      b.Retain();
      assert b !in old(active) && b !in available by { FirstIsAlone(old(available), old(active)); }
      assert forall c <- available :: c in old(available);
    }

    method CreateActive() returns (b: CommandBuffer)
      requires Valid() && available == [] && |active| < maxBuffers
      modifies this
      ensures Valid() && fresh(b) && b.Clean() && created == old(created) + 1
      ensures available == [] && active == old(active) + [b]
    {
      b := new CommandBuffer();
      AppendDistinct(available, active, b);
      active := active + [b];
      b.Retain();
      created := created + 1;
      assert forall c <- active :: c in old(active) || c == b;
    }

    /** getNextIndexOfObject. */
    method IndexOfActive(b: CommandBuffer) returns (i: nat)
      requires b in active
      ensures i < |active| && active[i] == b
    {
      i := 0;
      while active[i] != b
        invariant i < |active| && b in active[i..]
        decreases |active| - i
      {
        i := i + 1;
      }
    }

    /** A held buffer goes to the end of the waiting ones, cleaned unless it is pending: then it goes back as it is. */
    method ReleaseCommandBuffer(b: CommandBuffer) returns (status: Status)
      requires Valid() && b in active
      modifies this, b
      ensures Valid() && status == Success && created == old(created)
      ensures available == old(available) + [b] && b !in active
      ensures exists i | 0 <= i < |old(active)| ::
                old(active)[i] == b && active == old(active)[..i] + old(active)[i + 1..]
      ensures b.Clean() <==> old(b.state) != Pending
      ensures old(b.state) == Pending ==>
                b.state == Pending && b.commands == old(b.commands) && b.resources == old(b.resources)
    {
      var i := IndexOfActive(b);
      MiddleToEnd(available, active, i);
      active := active[..i] + active[i + 1..];
      b.Release();
      var reset := b.Reset();
      available := available + [b];
      b.Retain();
      b.Release();
      status := Success;
      assert old(active)[i] == b;
      assert forall c <- active :: c in old(active) && c != b;
    }
  }

  lemma AppendDistinct(a: seq<CommandBuffer>, s: seq<CommandBuffer>, b: CommandBuffer)
    requires a == [] && Distinct(a + s) && b !in s
    ensures Distinct(a + (s + [b]))
  {
    assert a + s == s;
    var t := a + (s + [b]);
    forall i, j | 0 <= i < j < |t| ensures t[i] != t[j] {
      assert t[i] == s[i];
      if j < |s| { assert t[j] == s[j]; }
    }
  }

  lemma FirstToLast(a: seq<CommandBuffer>, b: seq<CommandBuffer>)
    requires a != [] && Distinct(a + b)
    ensures Distinct(a[1..] + (b + [a[0]]))
  {
    var s, t := a + b, a[1..] + (b + [a[0]]);
    forall i, j | 0 <= i < j < |t| ensures t[i] != t[j] {
      assert t[i] == s[i + 1] && t[j] == s[if j + 1 < |s| then j + 1 else 0];
    }
  }

  lemma FirstIsAlone(a: seq<CommandBuffer>, b: seq<CommandBuffer>)
    requires a != [] && Distinct(a + b)
    ensures a[0] !in a[1..] && a[0] !in b
  {
    assert (a + b)[0] == a[0];
    forall i | 0 <= i < |a[1..]| ensures a[1..][i] != a[0] { assert a[1..][i] == (a + b)[i + 1]; }
    forall i | 0 <= i < |b| ensures b[i] != a[0] { assert b[i] == (a + b)[|a| + i]; }
  }

  lemma MiddleToEnd(a: seq<CommandBuffer>, b: seq<CommandBuffer>, i: nat)
    requires i < |b| && Distinct(a + b)
    ensures Distinct(a + [b[i]] + (b[..i] + b[i + 1..])) && b[i] !in a && b[i] !in b[..i] + b[i + 1..]
  {
    var s, t := a + b, a + [b[i]] + (b[..i] + b[i + 1..]);
    assert s[|a| + i] == b[i];
    forall k | 0 <= k < |a| ensures a[k] != b[i] { assert a[k] == s[k]; }
    var rest := b[..i] + b[i + 1..];
    forall k | 0 <= k < |rest| ensures rest[k] == s[|a| + if k < i then k else k + 1] && rest[k] != b[i] {}
    forall j, k | 0 <= j < k < |t| ensures t[j] != t[k] {
      assert j < |a| ==> t[j] == s[j];
      assert k < |a| ==> t[k] == s[k];
      assert k > |a| ==> t[k] == rest[k - |a| - 1];
      assert j > |a| ==> t[j] == rest[j - |a| - 1];
    }
  }
}
