/** The connection pool's lifecycle: eager or lazy initialisation of a fixed
    number of clients, handing clients out and taking them back, `end()`
    draining the idle clients, and `connect()` restarting an ended pool.

    The pool delegates to deno-postgres's `DeferredAccessStack`, whose code
    is not part of this model; it is modelled by its contract only: the idle clients with the
    most recently pushed one on top, the clients lent out, and a fixed total.
    Every operation is one whole call, with its awaited promises settled. */
module ConnectionPool {
  import opened Results

  /** A pool client, identified by its position in the pool and the
      generation of the `#initialize` call that created it (each call makes
      new client objects), and whether it has opened its database
      connection. */
  datatype Client = Client(id: nat, generation: nat, connected: bool)

  /** The deferred-access stack: `idle` (its last element is the top),
      `lent` (the clients callers hold) and the fixed capacity `total`. */
  datatype Stack = Stack(idle: seq<Client>, lent: seq<Client>, total: nat)

  /** The pool: its configured size and laziness, whether it was ended, how
      many times `#initialize` ran before the current stack was made (its
      generation), and its stack when one is live. */
  datatype Pool = Pool(size: nat, lazy: bool, ended: bool, generation: nat, stack: Option<Stack>)

  /** What `connect()` does: hand out a client, or park the caller until a
      client is released (the waiting itself is not modelled). */
  datatype Acquire = Granted(client: Client, pool: Pool) | Parked(pool: Pool)

  const AlreadyTerminated: string := "Pool connections have already been terminated"

  /** Every client is either idle or lent out, never both. */
  predicate StackValid(s: Stack) {
    |s.idle| + |s.lent| == s.total
  }

  /** Every client in `cs` was created by the `#initialize` call of
      generation `g`. */
  predicate OfGeneration(cs: seq<Client>, g: nat) {
    forall i :: 0 <= i < |cs| ==> cs[i].generation == g
  }

  /** The pool's invariant: a stack is live exactly when the pool has not
      ended, and a live stack holds the pool's `size` clients, all of the
      current generation. */
  predicate Valid(p: Pool) {
    && (p.ended <==> p.stack.None?)
    && (p.stack.Some? ==>
          && StackValid(p.stack.value) && p.stack.value.total == p.size
          && OfGeneration(p.stack.value.idle, p.generation)
          && OfGeneration(p.stack.value.lent, p.generation))
  }

  // ---------------------------------------------------------------------
  // Clients

  /** The `size` fresh clients the `#initialize` call of generation `g`
      creates; the first `eager` of them connect at once. */
  function NewClients(size: nat, eager: nat, g: nat): (r: seq<Client>)
    ensures |r| == size
    ensures forall i :: 0 <= i < size ==> r[i] == Client(i, g, i < eager)
  {
    seq(size, (i: nat) => Client(i, g, i < eager))
  }

  /** The number of connected clients in `cs`. */
  function CountConnected(cs: seq<Client>): (n: nat)
    ensures n <= |cs|
  {
    if |cs| == 0 then 0
    else CountConnected(cs[..|cs| - 1]) + (if cs[|cs| - 1].connected then 1 else 0)
  }

  lemma {:induction false} CountConnectedAppend(cs: seq<Client>, c: Client)
    ensures CountConnected(cs + [c]) == CountConnected(cs) + (if c.connected then 1 else 0)
  {
    assert (cs + [c])[..|cs|] == cs;
  }

  /** Counting over two parts adds up. */
  lemma {:induction false} CountConnectedConcat(a: seq<Client>, b: seq<Client>)
    ensures CountConnected(a + b) == CountConnected(a) + CountConnected(b)
    decreases |b|
  {
    if |b| == 0 {
      assert a + b == a;
    } else {
      var b' := b[..|b| - 1];
      assert a + b == (a + b') + [b[|b| - 1]];
      assert b == b' + [b[|b| - 1]];
      CountConnectedAppend(a + b', b[|b| - 1]);
      CountConnectedAppend(b', b[|b| - 1]);
      CountConnectedConcat(a, b');
    }
  }

  /** All clients connected, or none. */
  lemma {:induction false} CountConnectedUniform(cs: seq<Client>, connected: bool)
    requires forall i :: 0 <= i < |cs| ==> cs[i].connected == connected
    ensures CountConnected(cs) == (if connected then |cs| else 0)
    decreases |cs|
  {
    if |cs| > 0 {
      CountConnectedUniform(cs[..|cs| - 1], connected);
    }
  }

  /** `cs` without the first occurrence of `c`. */
  function RemoveFirst(cs: seq<Client>, c: Client): (r: seq<Client>)
    requires c in cs
    ensures |r| == |cs| - 1
    ensures multiset(r) + multiset{c} == multiset(cs)
    ensures forall i :: 0 <= i < |r| ==> r[i] in cs
  {
    assert cs == [cs[0]] + cs[1..];
    if cs[0] == c then cs[1..]
    else
      [cs[0]] + RemoveFirst(cs[1..], c)
  }

  // ---------------------------------------------------------------------
  // The stack's contract

  /** `pop()` with an idle client: take the top one, connecting it first
      when it never connected, and lend it out. */
  function Pop(s: Stack): (r: (Client, Stack))
    requires StackValid(s) && |s.idle| > 0
    ensures StackValid(r.1) && r.1.total == s.total
    ensures r.0 == s.idle[|s.idle| - 1].(connected := true)
    ensures r.1.idle == s.idle[..|s.idle| - 1] && r.1.lent == s.lent + [r.0]
  {
    var top := s.idle[|s.idle| - 1];
    var c := top.(connected := true);
    (c, Stack(s.idle[..|s.idle| - 1], s.lent + [c], s.total))
  }

  /** `push(client)` with no caller waiting: the client becomes the top of
      the idle clients. */
  function Push(s: Stack, c: Client): (r: Stack)
    requires StackValid(s) && c in s.lent
    ensures StackValid(r) && r.total == s.total
    ensures r.idle == s.idle + [c]
    ensures multiset(r.lent) + multiset{c} == multiset(s.lent)
  {
    Stack(s.idle + [c], RemoveFirst(s.lent, c), s.total)
  }

  // ---------------------------------------------------------------------
  // The pool

  /** `available`: the idle clients of the live stack, else 0. */
  function Available(p: Pool): (n: nat)
    ensures p.ended && Valid(p) ==> n == 0
    ensures Valid(p) ==> n <= Size(p)
  {
    if p.stack.None? then 0 else |p.stack.value.idle|
  }

  /** `size`: the capacity of the live stack, else 0. */
  function Size(p: Pool): (n: nat)
    ensures Valid(p) ==> n == (if p.ended then 0 else p.size)
  {
    if p.stack.None? then 0 else p.stack.value.total
  }

  /** The clients callers hold from the live stack. */
  function Lent(p: Pool): nat {
    if p.stack.None? then 0 else |p.stack.value.lent|
  }

  /** `initialized()`: how many of the live stack's clients have connected,
      else 0. */
  function Initialized(p: Pool): (n: nat)
    ensures p.ended && Valid(p) ==> n == 0
    ensures Valid(p) ==> n <= Size(p)
  {
    if p.stack.None? then 0
    else CountConnected(p.stack.value.idle) + CountConnected(p.stack.value.lent)
  }

  /** Clients are idle or lent out, so the two always add up to the size. */
  lemma AvailablePlusLent(p: Pool)
    requires Valid(p)
    ensures Available(p) + Lent(p) == Size(p)
    ensures !p.ended ==> Size(p) == p.size
    ensures p.ended ==> Available(p) == 0 && Size(p) == 0 && Initialized(p) == 0
  {
  }

  /** `#initialize` as the call of generation `g`: `size` new clients, all
      of them connected for an eager pool and none for a lazy one, in a fresh
      stack; `ended` is cleared. The constructor's call is generation 0. */
  function Initialize(size: nat, lazy: bool, g: nat): (p: Pool)
    ensures Valid(p) && !p.ended
    ensures p.size == size && p.lazy == lazy && p.generation == g
    ensures Available(p) == size && Size(p) == size && Lent(p) == 0
    ensures forall i :: 0 <= i < size ==> p.stack.value.idle[i] == Client(i, g, !lazy)
  {
    var eager := if lazy then 0 else size;
    Pool(size, lazy, false, g, Some(Stack(NewClients(size, eager, g), [], size)))
  }

  /** Right after initialisation an eager pool has connected every client
      and a lazy pool none. */
  lemma InitializedCount(size: nat, lazy: bool, g: nat)
    ensures Initialized(Initialize(size, lazy, g)) == (if lazy then 0 else size)
  {
    var s := Initialize(size, lazy, g).stack.value;
    CountConnectedUniform(s.idle, !lazy);
  }

  /** `connect()`: restart an ended pool with its original size and
      laziness, as the next generation, then pop from the stack. */
  function Connect(p: Pool): (r: Acquire)
    requires Valid(p)
    ensures Valid(r.pool) && !r.pool.ended
    ensures r.pool.size == p.size && r.pool.lazy == p.lazy
    ensures r.pool.generation == if p.ended then p.generation + 1 else p.generation
    ensures p.ended ==> Size(r.pool) == p.size
    ensures !p.ended ==> Size(r.pool) == Size(p)
    ensures r.Granted? <==> (p.ended && p.size > 0) || (!p.ended && Available(p) > 0)
    ensures r.Granted? && !p.ended ==>
      && r.client == p.stack.value.idle[Available(p) - 1].(connected := true)
      && Available(r.pool) == Available(p) - 1
      && Lent(r.pool) == Lent(p) + 1
      && r.pool.stack.value.idle == p.stack.value.idle[..Available(p) - 1]
      && r.pool.stack.value.lent == p.stack.value.lent + [r.client]
    ensures r.Granted? ==> r.client.connected && r.client in r.pool.stack.value.lent
    ensures r.Parked? && !p.ended ==> r.pool == p
  {
    var ready := if p.ended then Initialize(p.size, p.lazy, p.generation + 1) else p;
    var s := ready.stack.value;
    if |s.idle| > 0 then
      var (c, s') := Pop(s);
      Granted(c, ready.(stack := Some(s')))
    else Parked(ready)
  }

  /** A caller's `release()`: push the client back onto the live stack. The
      release callback dereferences the stack, so with no live stack it
      fails; releasing a client this stack did not lend, one from before an
      `end()` included, is refused here. */
  function Release(p: Pool, c: Client): (r: Result<Pool>)
    requires Valid(p)
    ensures r.Ok? <==> p.stack.Some? && c in p.stack.value.lent
    ensures c.generation != p.generation ==> r.Err?
    ensures r.Ok? ==> Valid(r.value) && r.value.size == p.size && r.value.lazy == p.lazy
    ensures r.Ok? ==> r.value.generation == p.generation
    ensures r.Ok? ==> r.value.stack.Some? && r.value.stack.value.idle == p.stack.value.idle + [c]
    ensures r.Ok? ==> Available(r.value) == Available(p) + 1 && Lent(r.value) == Lent(p) - 1
  {
    if p.stack.None? then Err("the pool has no live stack")
    else if c !in p.stack.value.lent then Err("the client was not lent by this stack")
    else Ok(p.(stack := Some(Push(p.stack.value, c))))
  }

  /** The order in which the drain loop pops and ends the idle clients: top
      first, each connected by `pop` before it is ended. */
  function DrainOrder(idle: seq<Client>): (r: seq<Client>)
    ensures |r| == |idle|
  {
    if |idle| == 0 then []
    else [idle[|idle| - 1].(connected := true)] + DrainOrder(idle[..|idle| - 1])
  }

  /** The drained clients are exactly the idle ones, from the top down. */
  lemma {:induction false} DrainOrderEndsEach(idle: seq<Client>)
    ensures forall i :: 0 <= i < |idle| ==>
      DrainOrder(idle)[i] == idle[|idle| - 1 - i].(connected := true)
    decreases |idle|
  {
    if |idle| > 0 {
      var rest := idle[..|idle| - 1];
      DrainOrderEndsEach(rest);
      forall i | 0 <= i < |idle|
        ensures DrainOrder(idle)[i] == idle[|idle| - 1 - i].(connected := true)
      {
        if i > 0 {
          assert DrainOrder(idle)[i] == DrainOrder(rest)[i - 1];
          assert rest[|rest| - 1 - (i - 1)] == idle[|idle| - 1 - i];
        }
      }
    }
  }

  /** `end()`'s drain loop: while clients are available, pop one and end
      it. Returns the ended clients in order and the emptied stack. */
  method Drain(s: Stack) returns (ended: seq<Client>, s': Stack)
    requires StackValid(s)
    ensures ended == DrainOrder(s.idle)
    ensures s'.idle == [] && s'.total == s.total
    ensures |s'.lent| == |s.lent| + |s.idle|
  {
    s' := s;
    ended := [];
    while |s'.idle| > 0
      invariant StackValid(s') && s'.total == s.total
      invariant |s'.idle| <= |s.idle| && s'.idle == s.idle[..|s'.idle|]
      invariant |s'.lent| == |s.lent| + (|s.idle| - |s'.idle|)
      invariant ended + DrainOrder(s'.idle) == DrainOrder(s.idle)
      decreases |s'.idle|
    {
      var before := s'.idle;
      var popped := Pop(s');
      var c := popped.0;
      s' := popped.1;
      assert DrainOrder(before) == [c] + DrainOrder(s'.idle);
      assert s'.idle == s.idle[..|s'.idle|];
      ended := ended + [c];
    }
    assert DrainOrder(s'.idle) == [];
  }

  /** `end()`: refused on an ended pool, with nothing changed; otherwise
      every idle client is popped and ended, the stack is dropped and the
      pool is marked ended. Clients still lent out are not reclaimed.
      Returns the ended pool and the clients ended, in order. */
  function End(p: Pool): (r: Result<(Pool, seq<Client>)>)
    requires Valid(p)
    ensures p.ended <==> r == Err(AlreadyTerminated)
    ensures r.Ok? ==> Valid(r.value.0) && r.value.0.ended
    ensures r.Ok? ==> r.value.0.size == p.size && r.value.0.lazy == p.lazy
    ensures r.Ok? ==> Available(r.value.0) == 0 && Size(r.value.0) == 0 && Initialized(r.value.0) == 0
    ensures r.Ok? ==> r.value.0.generation == p.generation
    ensures r.Ok? ==> r.value.1 == DrainOrder(p.stack.value.idle)
    ensures r.Ok? ==>
      (&& |r.value.1| == Available(p)
       && forall i :: 0 <= i < |r.value.1| ==>
            r.value.1[i] == p.stack.value.idle[Available(p) - 1 - i].(connected := true))
  {
    if p.ended then Err(AlreadyTerminated)
    else
      DrainOrderEndsEach(p.stack.value.idle);
      Ok((p.(ended := true, stack := None), DrainOrder(p.stack.value.idle)))
  }

  /** `end(); end()` fails on the second call, whatever the pool was. */
  lemma EndTwiceFails(p: Pool)
    requires Valid(p) && !p.ended
    ensures End(p).Ok?
    ensures End(End(p).value.0) == Err(AlreadyTerminated)
  {
  }

  /** `end(); connect(); end()` succeeds: `connect()` revives the pool with
      its original size, so the second `end()` is accepted. */
  lemma EndConnectEnd(p: Pool)
    requires Valid(p) && !p.ended
    ensures End(p).Ok?
    ensures var q := Connect(End(p).value.0).pool;
      && Size(q) == p.size
      && End(q).Ok?
  {
  }

  /** After `end()` and a `connect()`, the pool holds a fresh set of
      `size` clients; one of them is lent out when the size is positive. */
  lemma ConnectAfterEnd(p: Pool)
    requires Valid(p) && !p.ended
    ensures var r := Connect(End(p).value.0);
      && (r.Granted? <==> p.size > 0)
      && (r.Granted? ==> Available(r.pool) == p.size - 1 && Lent(r.pool) == 1)
      && (r.Parked? ==> r.pool == Initialize(p.size, p.lazy, p.generation + 1))
  {
  }

  /** Acquiring a client and releasing it at once returns `available` to
      its value before the acquisition. */
  lemma AcquireReleaseRestores(p: Pool)
    requires Valid(p) && !p.ended && Available(p) > 0
    ensures var r := Connect(p);
      && r.Granted?
      && Release(r.pool, r.client).Ok?
      && Available(Release(r.pool, r.client).value) == Available(p)
      && Size(Release(r.pool, r.client).value) == Size(p)
  {
  }

  /** Idle clients are reused last-released first: releasing `a` then `b`
      makes the next two acquisitions return `b` then `a`. */
  lemma ReleaseOrderIsLifo(p: Pool, a: Client, b: Client)
    requires Valid(p) && !p.ended
    requires a.connected && b.connected
    requires Release(p, a).Ok? && Release(Release(p, a).value, b).Ok?
    ensures var q := Release(Release(p, a).value, b).value;
      var first := Connect(q);
      && first.Granted? && first.client == b
      && Connect(first.pool).Granted? && Connect(first.pool).client == a
  {
    var q := Release(Release(p, a).value, b).value;
    var first := Connect(q);
    var n := |p.stack.value.idle|;
    assert q.stack.value.idle == p.stack.value.idle + [a] + [b];
    assert first.pool.stack.value.idle == p.stack.value.idle + [a];
  }

  /** A lazy pool connects on demand: one `connect()` on a fresh lazy pool
      of positive size leaves exactly one client connected. */
  lemma LazyConnectsOnDemand(size: nat, g: nat)
    requires size > 0
    ensures Initialized(Initialize(size, true, g)) == 0
    ensures var r := Connect(Initialize(size, true, g));
      r.Granted? && Initialized(r.pool) == 1
  {
    var p := Initialize(size, true, g);
    var s := p.stack.value;
    InitializedCount(size, true, g);
    var r := Connect(p);
    var s' := r.pool.stack.value;
    CountConnectedUniform(s'.idle, false);
    assert s'.lent == [r.client];
    assert CountConnected([r.client]) == 1 by {
      CountConnectedAppend([], r.client);
      assert [] + [r.client] == [r.client];
    }
  }

  /** A connect/release cycle on a fresh lazy pool leaves every client
      idle, exactly one of them connected. */
  lemma LazyCycleConnectsOne(size: nat, g: nat)
    requires size > 0
    ensures var r := Connect(Initialize(size, true, g));
      && r.Granted? && Release(r.pool, r.client).Ok?
      && var q := Release(r.pool, r.client).value;
      && q.stack.value.lent == [] && Available(q) == size
      && CountConnected(q.stack.value.idle) == 1 && Initialized(q) == 1
  {
    var p := Initialize(size, true, g);
    var r := Connect(p);
    var s' := r.pool.stack.value;
    assert s'.lent == [r.client];
    var q := Release(r.pool, r.client).value;
    assert q.stack.value.idle == s'.idle + [r.client];
    assert |q.stack.value.lent| == 0;
    CountConnectedUniform(s'.idle, false);
    CountConnectedAppend(s'.idle, r.client);
  }

  /** The pool never lends out more clients than its size. */
  lemma LentAtMostSize(p: Pool)
    requires Valid(p)
    ensures Lent(p) <= p.size
  {
  }

  /** Clients do not survive a restart: after `connect()`, `end()` and
      `connect()` again, releasing the client of the first `connect()` is
      refused while releasing the client just lent is accepted. */
  lemma ReleaseAcrossRestart(p: Pool)
    requires Valid(p) && !p.ended && Available(p) > 0
    ensures var first := Connect(p);
      && first.Granted? && End(first.pool).Ok?
      && var second := Connect(End(first.pool).value.0);
      && second.Granted?
      && Release(second.pool, first.client).Err?
      && Release(second.pool, second.client).Ok?
  {
    var first := Connect(p);
    var second := Connect(End(first.pool).value.0);
    assert first.client.generation == p.generation;
    assert second.pool.generation == p.generation + 1;
  }
}
