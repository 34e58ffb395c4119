/** The connection pool: open data-source connections shared between the
    layers that name the same connection type and connection string, with a
    reference count, the thread that holds them, and a lifespan that says
    whether a connection is closed as soon as nobody references it.

    The pool is a value. The close callbacks a driver registers are not
    run; each call the pool makes is recorded, in order, in `closed`.
    Locks are left out (the model is single-threaded) and the caller's
    thread id is a parameter. */
module ConnPool {
  import opened Wrappers
  import opened CStrings

  /** A driver's connection handle (`void *`), compared by identity. */
  type Handle = nat

  /** `MS_LIFE_FOREVER` (CLOSE_CONNECTION=DEFER) and `MS_LIFE_ZEROREF`. */
  datatype Lifespan = Forever | ZeroRef

  datatype Conn = Conn(
    conntype: int,
    connection: string,
    lifespan: Lifespan,
    refCount: int,
    thread: int,
    debug: int,
    handle: Handle,
    closer: Option<nat>)

  /** One call of a close callback on a handle. */
  datatype Call = Call(closer: nat, handle: Handle)

  datatype Pool = Pool(conns: seq<Conn>, closed: seq<Call>)

  /** What the pool reads from a layer; `closeConnection` is the layer's
      CLOSE_CONNECTION processing key, if set. */
  datatype Layer = Layer(conntype: int, connection: Option<string>, closeConnection: Option<string>, debug: int)

  const EmptyPool := Pool([], [])

  /** The call a connection's close makes, if it has a callback. */
  function CallsOf(c: Conn): seq<Call> {
    if c.closer.Some? then [Call(c.closer.value, c.handle)] else []
  }

  // ---------------------------------------------------------------------
  // Invariant
  // ---------------------------------------------------------------------

  /** What the operations keep: counts are never negative, an unreferenced
      connection is held by no thread and lives until the final cleanup
      (a ZEROREF one is closed when its count reaches zero), and no handle
      is pooled twice. */
  ghost predicate Good(p: Pool) {
    (forall j :: 0 <= j < |p.conns| ==> EntryOk(p.conns[j])) && UniqueHandles(p.conns)
  }

  predicate EntryOk(c: Conn) {
    c.refCount >= 0 && (c.refCount == 0 ==> c.thread == 0 && c.lifespan == Forever)
  }

  ghost predicate UniqueHandles(s: seq<Conn>) {
    forall j, k :: 0 <= j < k < |s| ==> s[j].handle != s[k].handle
  }

  // ---------------------------------------------------------------------
  // Register
  // ---------------------------------------------------------------------

  datatype Registered = Registered(pool: Pool, ok: bool)

  /** CLOSE_CONNECTION: unset or NORMAL gives ZEROREF, DEFER gives FOREVER;
      anything else is reported and gives ZEROREF. */
  function LifespanOf(closeConnection: Option<string>): Lifespan {
    if closeConnection.Some? && LowerAll(closeConnection.value) == "defer" then Forever else ZeroRef
  }

  predicate KnownCloseConnection(closeConnection: Option<string>) {
    closeConnection.None? || LowerAll(closeConnection.value) in {"normal", "defer"}
  }

  /** `msConnPoolRegister`: add a connection the layer's driver has just
      opened, referenced once by thread `tid`. */
  function Register(p: Pool, layer: Layer, handle: Handle, closer: Option<nat>, tid: int): (r: Registered)
    ensures layer.connection.None? ==> r.pool == p && !r.ok
    ensures layer.connection.Some? ==>
      |r.pool.conns| == |p.conns| + 1 && r.pool.conns[..|p.conns|] == p.conns && r.pool.closed == p.closed
    ensures layer.connection.Some? ==> var c := r.pool.conns[|p.conns|];
      c.conntype == layer.conntype && c.connection == layer.connection.value && c.handle == handle
      && c.closer == closer && c.refCount == 1 && c.thread == tid && c.debug == layer.debug
  {
    if layer.connection.None? then Registered(p, false)
    else
      var c := Conn(layer.conntype, layer.connection.value, LifespanOf(layer.closeConnection),
                    1, tid, layer.debug, handle, closer);
      Registered(p.(conns := p.conns + [c]), KnownCloseConnection(layer.closeConnection))
  }

  /** The lifespan and the error report follow CLOSE_CONNECTION, compared
      without regard to case. */
  lemma RegisterLifespan(p: Pool, layer: Layer, handle: Handle, closer: Option<nat>, tid: int)
    requires layer.connection.Some?
    ensures var r := Register(p, layer, handle, closer, tid);
      var cc := layer.closeConnection;
      (r.pool.conns[|p.conns|].lifespan == Forever <==> cc.Some? && EqualFold(cc.value, "DEFER"))
      && (r.ok <==> cc.None? || EqualFold(cc.value, "NORMAL") || EqualFold(cc.value, "DEFER"))
  {
    var d, n := "DEFER", "NORMAL";
    assert LowerAll(d) == "defer" by { LowerAllAt(d); }
    assert LowerAll(n) == "normal" by { LowerAllAt(n); }
  }

  lemma RegisterGood(p: Pool, layer: Layer, handle: Handle, closer: Option<nat>, tid: int)
    requires Good(p)
    requires forall j :: 0 <= j < |p.conns| ==> p.conns[j].handle != handle
    ensures Good(Register(p, layer, handle, closer, tid).pool)
  {
    var r := Register(p, layer, handle, closer, tid).pool;
    if layer.connection.Some? {
      forall j | 0 <= j < |p.conns| ensures r.conns[j] == p.conns[j] {
        assert r.conns[..|p.conns|][j] == r.conns[j];
      }
    }
  }

  // ---------------------------------------------------------------------
  // Request and release
  // ---------------------------------------------------------------------

  /** Same connection type and, ignoring case, the same connection string. */
  predicate SameSource(c: Conn, layer: Layer)
    requires layer.connection.Some?
  {
    c.conntype == layer.conntype && EqualFold(layer.connection.value, c.connection)
  }

  /** A connection thread `tid` may share: same source, and either free or
      already held by `tid`. */
  predicate Shareable(c: Conn, layer: Layer, tid: int)
    requires layer.connection.Some?
  {
    SameSource(c, layer) && (c.refCount == 0 || c.thread == tid)
  }

  function FirstShareable(conns: seq<Conn>, layer: Layer, tid: int, i: nat): (r: Option<nat>)
    requires layer.connection.Some? && i <= |conns|
    ensures r.Some? ==> i <= r.value < |conns| && Shareable(conns[r.value], layer, tid)
    ensures forall j :: i <= j < (if r.Some? then r.value else |conns|) ==> !Shareable(conns[j], layer, tid)
    decreases |conns| - i
  {
    if i == |conns| then None
    else if Shareable(conns[i], layer, tid) then Some(i)
    else FirstShareable(conns, layer, tid, i + 1)
  }

  datatype Requested = Requested(pool: Pool, handle: Option<Handle>)

  /** `msConnPoolRequest`: hand out the first shareable connection and count
      the new reference; `None` (the pool unchanged) when there is none. */
  function Request(p: Pool, layer: Layer, tid: int): (r: Requested)
    ensures r.handle.None? ==> r.pool == p
    ensures r.handle.None? <==> layer.connection.None? || forall j :: 0 <= j < |p.conns| ==> !Shareable(p.conns[j], layer, tid)
    ensures r.handle.Some? ==> exists i :: (0 <= i < |p.conns| && Shareable(p.conns[i], layer, tid)
      && (forall j :: 0 <= j < i ==> !Shareable(p.conns[j], layer, tid))
      && r.handle.value == p.conns[i].handle
      && r.pool == p.(conns := p.conns[i := p.conns[i].(refCount := p.conns[i].refCount + 1, thread := tid,
                                                         debug := if layer.debug != 0 then layer.debug else p.conns[i].debug)]))
  {
    if layer.connection.None? then Requested(p, None)
    else match FirstShareable(p.conns, layer, tid, 0)
      case None => Requested(p, None)
      case Some(i) =>
        var c := p.conns[i];
        var c' := c.(refCount := c.refCount + 1, thread := tid, debug := if layer.debug != 0 then layer.debug else c.debug);
        Requested(p.(conns := p.conns[i := c']), Some(c.handle))
  }

  /** The entry a release of `handle` by this layer refers to. */
  predicate Holds(c: Conn, layer: Layer, handle: Handle)
    requires layer.connection.Some?
  {
    SameSource(c, layer) && c.handle == handle
  }

  function FirstHeld(conns: seq<Conn>, layer: Layer, handle: Handle, i: nat): (r: Option<nat>)
    requires layer.connection.Some? && i <= |conns|
    ensures r.Some? ==> i <= r.value < |conns| && Holds(conns[r.value], layer, handle)
    ensures forall j :: i <= j < (if r.Some? then r.value else |conns|) ==> !Holds(conns[j], layer, handle)
    decreases |conns| - i
  {
    if i == |conns| then None
    else if Holds(conns[i], layer, handle) then Some(i)
    else FirstHeld(conns, layer, handle, i + 1)
  }

  datatype Released = Released(pool: Pool, ok: bool)

  /** The entry after one reference is dropped. */
  function Dropped(c: Conn): (r: Conn)
    ensures r.refCount == c.refCount - 1
    ensures r.(thread := c.thread) == c.(refCount := c.refCount - 1)
    ensures r.thread == (if c.refCount == 1 then 0 else c.thread)
  {
    var n := c.refCount - 1;
    c.(refCount := n, thread := if n == 0 then 0 else c.thread)
  }

  /** `msConnPoolRelease`: drop the reference; a ZEROREF connection that
      nobody references any more is closed. A layer without a connection
      string is ignored; an unknown handle is reported and changes nothing. */
  function Release(p: Pool, layer: Layer, handle: Handle): (r: Released)
    ensures layer.connection.None? ==> r == Released(p, true)
    ensures !r.ok ==> r.pool == p
    ensures layer.connection.Some? ==>
      (r.ok <==> exists j :: 0 <= j < |p.conns| && Holds(p.conns[j], layer, handle))
    ensures layer.connection.Some? && r.ok ==> exists i :: (0 <= i < |p.conns| && Holds(p.conns[i], layer, handle)
      && (forall j :: 0 <= j < i ==> !Holds(p.conns[j], layer, handle))
      && var p' := p.(conns := p.conns[i := Dropped(p.conns[i])]);
         r.pool == if p.conns[i].refCount == 1 && p.conns[i].lifespan == ZeroRef then Close(p', i) else p')
  {
    if layer.connection.None? then Released(p, true)
    else match FirstHeld(p.conns, layer, handle, 0)
      case None => Released(p, false)
      case Some(i) =>
        var c := Dropped(p.conns[i]);
        var p' := p.(conns := p.conns[i := c]);
        Released(if c.refCount == 0 && c.lifespan == ZeroRef then Close(p', i) else p', true)
  }

  // ---------------------------------------------------------------------
  // Closing
  // ---------------------------------------------------------------------

  /** `msConnPoolClose`: run the close callback, then fill slot `i` with
      the last entry and shorten the table by one. */
  function Close(p: Pool, i: nat): (r: Pool)
    requires i < |p.conns|
    ensures |r.conns| == |p.conns| - 1
    ensures forall j :: 0 <= j < |r.conns| && j != i ==> r.conns[j] == p.conns[j]
    ensures i < |r.conns| ==> r.conns[i] == p.conns[|p.conns| - 1]
    ensures r.closed == p.closed + CallsOf(p.conns[i])
  {
    Pool(MoveLastInto(p.conns, i), p.closed + CallsOf(p.conns[i]))
  }

  /** The table after its slot `i` is filled with the last entry and the
      last slot is dropped. */
  function MoveLastInto<T>(s: seq<T>, i: nat): (r: seq<T>)
    requires i < |s|
  {
    var n := |s| - 1;
    if n == 0 then [] else s[i := s[n]][..n]
  }

  /** Closing removes exactly the entry at `i`. */
  lemma CloseRemoves(p: Pool, i: nat)
    requires i < |p.conns|
    ensures multiset(Close(p, i).conns) + multiset{p.conns[i]} == multiset(p.conns)
  {
    CloseMultiset(p.conns, i);
  }

  /** Filling slot `i` with the last element and dropping the last slot
      removes exactly the element at `i`. */
  lemma CloseMultiset<T>(s: seq<T>, i: nat)
    requires i < |s|
    ensures multiset(MoveLastInto(s, i)) + multiset{s[i]} == multiset(s)
  {
    var n := |s| - 1;
    if n > 0 {
      var u := s[i := s[n]];
      MultisetAround(s, i);
      MultisetAround(u, i);
      assert u[..i] == s[..i] && u[i + 1..] == s[i + 1..];
      MultisetAround(u, n);
      assert u[n + 1..] == [];
      MultisetCancel(multiset(u[..n]), multiset(s[..i]) + multiset(s[i + 1..]), multiset{s[n]});
    }
  }

  lemma MultisetAround<T>(s: seq<T>, i: nat)
    requires i < |s|
    ensures multiset(s) == multiset(s[..i]) + multiset(s[i + 1..]) + multiset{s[i]}
  {
    assert s == s[..i] + [s[i]] + s[i + 1..];
  }

  lemma MultisetCancel<T>(x: multiset<T>, y: multiset<T>, m: multiset<T>)
    requires x + m == y + m
    ensures x == y
  {
    forall e ensures x[e] == y[e] {
      assert (x + m)[e] == x[e] + m[e];
      assert (y + m)[e] == y[e] + m[e];
    }
  }

  /** The entries still referenced, in order. */
  function Referenced(s: seq<Conn>): (r: seq<Conn>)
    ensures forall j :: 0 <= j < |r| ==> r[j].refCount != 0
  {
    if |s| == 0 then []
    else
      var last := s[|s| - 1];
      assert s == s[..|s| - 1] + [last];
      Referenced(s[..|s| - 1]) + (if last.refCount != 0 then [last] else [])
  }

  /** `Referenced` keeps every referenced entry as often as it occurs and
      drops every unreferenced one. */
  lemma {:induction false} ReferencedCount(s: seq<Conn>, x: Conn)
    ensures multiset(Referenced(s))[x] == if x.refCount != 0 then multiset(s)[x] else 0
  {
    if |s| > 0 {
      ReferencedCount(s[..|s| - 1], x);
      ReferencedStep(s, x);
    }
  }

  /** The step of `ReferencedCount`: the last entry is kept exactly when it
      is referenced. */
  lemma ReferencedStep(s: seq<Conn>, x: Conn)
    requires |s| > 0
    requires var init := s[..|s| - 1];
      multiset(Referenced(init))[x] == if x.refCount != 0 then multiset(init)[x] else 0
    ensures multiset(Referenced(s))[x] == if x.refCount != 0 then multiset(s)[x] else 0
  {
    LastCount(s, x);
    if s[|s| - 1].refCount != 0 {
      var r := Referenced(s);
      assert r == Referenced(s[..|s| - 1]) + [s[|s| - 1]];
      LastCount(r, x);
      assert r[..|r| - 1] == Referenced(s[..|s| - 1]);
    }
  }

  /** How often `x` occurs, counted up to the last element. */
  lemma LastCount<T>(s: seq<T>, x: T)
    requires |s| > 0
    ensures multiset(s)[x] == multiset(s[..|s| - 1])[x] + (if s[|s| - 1] == x then 1 else 0)
  {
    assert s == s[..|s| - 1] + [s[|s| - 1]];
    SnocCount(s[..|s| - 1], s[|s| - 1], x);
  }

  /** How often `x` occurs after appending `last`. */
  lemma SnocCount<T>(s: seq<T>, last: T, x: T)
    ensures multiset(s + [last])[x] == multiset(s)[x] + (if last == x then 1 else 0)
  {
    assert multiset(s + [last]) == multiset(s) + multiset{last};
  }

  /** Examine slots `i - 1` down to `0`, closing the unreferenced ones; the
      slots from `i` on have been examined already. */
  function CloseUnreferencedFrom(p: Pool, i: nat): (r: Pool)
    requires i <= |p.conns|
    decreases i
  {
    if i == 0 then p
    else
      var q := if p.conns[i - 1].refCount == 0 then Close(p, i - 1) else p;
      CloseUnreferencedFrom(q, i - 1)
  }

  /** `msConnPoolCloseUnreferenced`: close every connection nobody
      references, walking the table from the end. */
  function CloseUnreferenced(p: Pool): (r: Pool)
  {
    CloseUnreferencedFrom(p, |p.conns|)
  }

  /**
   * The backwards walk from slot `i`, when the slots from `i` on are all
   * referenced: every referenced connection stays as often as it occurs
   * and every unreferenced one is gone.
   */
  lemma {:induction false} CloseUnreferencedFromCount(p: Pool, i: nat, x: Conn)
    requires i <= |p.conns|
    requires forall j :: i <= j < |p.conns| ==> p.conns[j].refCount != 0
    ensures multiset(CloseUnreferencedFrom(p, i).conns)[x] == if x.refCount != 0 then multiset(p.conns)[x] else 0
    decreases i
  {
    if i == 0 {
      if x.refCount == 0 {
        assert forall j :: 0 <= j < |p.conns| ==> p.conns[j] != x;
        assert x !in p.conns;
      }
    } else if p.conns[i - 1].refCount == 0 {
      CloseKeepsTailReferenced(p, i);
      CloseUnreferencedFromCount(Close(p, i - 1), i - 1, x);
      CountAfterClose(p, i, x);
    } else {
      CloseUnreferencedFromCount(p, i - 1, x);
    }
  }

  /** The step of the walk that closes the unreferenced slot `i - 1`. */
  lemma CountAfterClose(p: Pool, i: nat, x: Conn)
    requires 0 < i <= |p.conns| && p.conns[i - 1].refCount == 0
    requires var q := Close(p, i - 1);
      multiset(CloseUnreferencedFrom(q, i - 1).conns)[x] == if x.refCount != 0 then multiset(q.conns)[x] else 0
    ensures multiset(CloseUnreferencedFrom(p, i).conns)[x] == if x.refCount != 0 then multiset(p.conns)[x] else 0
  {
    var q := Close(p, i - 1);
    assert CloseUnreferencedFrom(p, i) == CloseUnreferencedFrom(q, i - 1);
    CloseRemoves(p, i - 1);
    assert multiset(p.conns)[x] == multiset(q.conns)[x] + multiset{p.conns[i - 1]}[x];
  }

  /** Closing an unreferenced slot `i - 1` whose successors are all
      referenced leaves the slots from `i - 1` on referenced. */
  lemma CloseKeepsTailReferenced(p: Pool, i: nat)
    requires 0 < i <= |p.conns| && p.conns[i - 1].refCount == 0
    requires forall j :: i <= j < |p.conns| ==> p.conns[j].refCount != 0
    ensures var q := Close(p, i - 1);
      forall j :: i - 1 <= j < |q.conns| ==> q.conns[j].refCount != 0
  {
    var q := Close(p, i - 1);
    forall j | i - 1 <= j < |q.conns| ensures q.conns[j].refCount != 0 {
      if j != i - 1 { assert q.conns[j] == p.conns[j]; }
    }
  }

  /** What stays is exactly the referenced connections. */
  lemma CloseUnreferencedKeeps(p: Pool)
    ensures multiset(CloseUnreferenced(p).conns) == multiset(Referenced(p.conns))
    ensures forall j :: 0 <= j < |CloseUnreferenced(p).conns| ==> CloseUnreferenced(p).conns[j].refCount != 0
  {
    var r := CloseUnreferenced(p).conns;
    var kept := Referenced(p.conns);
    assert multiset(r) == multiset(kept) by {
      forall x ensures multiset(r)[x] == multiset(kept)[x] {
        CloseUnreferencedFromCount(p, |p.conns|, x);
        ReferencedCount(p.conns, x);
      }
    }
    forall j | 0 <= j < |r| ensures r[j].refCount != 0 {
      assert r[j] in multiset(kept) by { assert r[j] in r; }
      var k :| 0 <= k < |kept| && kept[k] == r[j];
    }
  }

  /** `msConnPoolFinalCleanup`: close slot 0 until the table is empty. */
  function FinalCleanup(p: Pool): (r: Pool)
    ensures r.conns == []
    decreases |p.conns|
  {
    if |p.conns| == 0 then p else FinalCleanup(Close(p, 0))
  }

  /** Every entry closed, in the order the cleanup closes them: slot 0,
      then the entries moved into slot 0 from the end of the table. */
  lemma {:induction false} FinalCleanupCloses(p: Pool)
    ensures FinalCleanup(p).closed == p.closed + CallsSeq(ClosingOrder(p.conns))
    decreases |p.conns|
  {
    if |p.conns| > 0 {
      FinalCleanupCloses(Close(p, 0));
      FinalCleanupStep(p);
    }
  }

  /** One round of the cleanup: closing slot 0 records its calls, and the
      closing order of the rest continues that of the whole table. */
  lemma FinalCleanupStep(p: Pool)
    requires |p.conns| > 0
    requires var q := Close(p, 0);
      FinalCleanup(q).closed == q.closed + CallsSeq(ClosingOrder(q.conns))
    ensures FinalCleanup(p).closed == p.closed + CallsSeq(ClosingOrder(p.conns))
  {
    var q := Close(p, 0);
    FinalCleanupUnfold(p);
    FirstCalls(p);
    AppendAssoc(p.closed, CallsOf(p.conns[0]), CallsSeq(ClosingOrder(q.conns)));
  }

  lemma FinalCleanupUnfold(p: Pool)
    requires |p.conns| > 0
    ensures FinalCleanup(p) == FinalCleanup(Close(p, 0))
  {
  }

  lemma FirstCalls(p: Pool)
    requires |p.conns| > 0
    ensures CallsSeq(ClosingOrder(p.conns)) == CallsOf(p.conns[0]) + CallsSeq(ClosingOrder(Close(p, 0).conns))
  {
    CloseFirstOrder(p);
    CallsSeqCons(p.conns[0], ClosingOrder(Close(p, 0).conns));
  }

  lemma AppendAssoc<T>(a: seq<T>, b: seq<T>, c: seq<T>)
    ensures a + b + c == a + (b + c)
  {
  }

  /** One step of the cleanup: slot 0 is closed first, the rest are closed
      in the order the shortened table gives. */
  lemma CloseFirstOrder(p: Pool)
    requires |p.conns| > 0
    ensures ClosingOrder(p.conns) == [p.conns[0]] + ClosingOrder(Close(p, 0).conns)
  {
    var s := p.conns;
    var n := |s| - 1;
    var q := Close(p, 0).conns;
    if n == 0 {
      assert ClosingOrder(s) == [s[0]] by { assert s[1..] == []; }
    } else {
      var mid := s[1..n];
      assert q == [s[n]] + mid by {
        assert q[0] == s[n];
        forall j | 1 <= j < n ensures q[j] == s[j] { }
      }
      assert s[1..] == mid + [s[n]];
      ReverseSnoc(mid, s[n]);
      assert q[1..] == mid;
    }
  }

  /** The calls closing the entries of `s`, in order, make. */
  function CallsSeq(s: seq<Conn>): (r: seq<Call>)
    ensures |r| <= |s|
  {
    if |s| == 0 then [] else CallsOf(s[0]) + CallsSeq(s[1..])
  }

  lemma CallsSeqCons(c: Conn, s: seq<Conn>)
    ensures CallsSeq([c] + s) == CallsOf(c) + CallsSeq(s)
  {
    assert ([c] + s)[1..] == s;
  }

  /** Slot 0 first, then the others from the last one down. */
  function ClosingOrder(s: seq<Conn>): (r: seq<Conn>)
    ensures |r| == |s|
  {
    if |s| == 0 then [] else [s[0]] + Reverse(s[1..])
  }

  // ---------------------------------------------------------------------
  // Invariant preservation and the request/release round trip
  // ---------------------------------------------------------------------

  lemma RequestGood(p: Pool, layer: Layer, tid: int)
    requires Good(p)
    ensures Good(Request(p, layer, tid).pool)
  {
    var r := Request(p, layer, tid);
    if r.handle.Some? {
      var i :| 0 <= i < |p.conns| && Shareable(p.conns[i], layer, tid)
        && r.pool.conns == p.conns[i := p.conns[i].(refCount := p.conns[i].refCount + 1, thread := tid,
                                                     debug := if layer.debug != 0 then layer.debug else p.conns[i].debug)];
      assert forall j :: 0 <= j < |p.conns| ==> r.pool.conns[j].handle == p.conns[j].handle;
    }
  }

  /** Closing keeps the handles distinct: what stays are entries of the old
      table from distinct slots. */
  lemma CloseUnique(p: Pool, i: nat)
    requires UniqueHandles(p.conns) && i < |p.conns|
    ensures UniqueHandles(Close(p, i).conns)
  {
    var r := Close(p, i).conns;
    var n := |p.conns| - 1;
    forall j, k | 0 <= j < k < |r| ensures r[j].handle != r[k].handle {
      var j' := if j == i then n else j;
      var k' := if k == i then n else k;
      assert r[j] == p.conns[j'] && r[k] == p.conns[k'];
    }
  }

  lemma CloseGood(p: Pool, i: nat)
    requires Good(p) && i < |p.conns|
    ensures Good(Close(p, i))
  {
    CloseUnique(p, i);
    var r := Close(p, i).conns;
    forall j | 0 <= j < |r| ensures EntryOk(r[j]) {
      assert r[j] == p.conns[if j == i then |p.conns| - 1 else j];
    }
  }

  /** Releasing a connection the caller holds keeps the invariant. */
  lemma ReleaseGood(p: Pool, layer: Layer, handle: Handle)
    requires Good(p)
    requires layer.connection.Some? ==>
      forall j :: 0 <= j < |p.conns| && Holds(p.conns[j], layer, handle) ==> p.conns[j].refCount > 0
    ensures Good(Release(p, layer, handle).pool)
  {
    var r := Release(p, layer, handle);
    if layer.connection.Some? && r.ok {
      var i := FirstHeld(p.conns, layer, handle, 0).value;
      var p' := p.(conns := p.conns[i := Dropped(p.conns[i])]);
      if p.conns[i].refCount == 1 && p.conns[i].lifespan == ZeroRef {
        assert UniqueHandles(p'.conns) by {
          assert forall j :: 0 <= j < |p.conns| ==> p'.conns[j].handle == p.conns[j].handle;
        }
        CloseUnique(p', i);
        var r' := Close(p', i).conns;
        forall j | 0 <= j < |r'| ensures EntryOk(r'[j]) {
          assert r'[j] == p.conns[if j == i then |p.conns| - 1 else j];
        }
      } else {
        assert EntryOk(Dropped(p.conns[i]));
        assert forall j :: 0 <= j < |p.conns| ==> p'.conns[j].handle == p.conns[j].handle;
      }
    }
  }

  lemma CloseUnreferencedFromGood(p: Pool, i: nat)
    requires Good(p) && i <= |p.conns|
    ensures Good(CloseUnreferencedFrom(p, i))
    decreases i
  {
    if i > 0 {
      if p.conns[i - 1].refCount == 0 {
        CloseGood(p, i - 1);
        CloseUnreferencedFromGood(Close(p, i - 1), i - 1);
      } else {
        CloseUnreferencedFromGood(p, i - 1);
      }
    }
  }

  /** Releasing the handle a request has just returned, from the same
      layer, puts the pool back as it was (when the layer does not ask for
      debugging, which would overwrite the entry's debug level). */
  lemma RequestRelease(p: Pool, layer: Layer, tid: int)
    requires Good(p) && layer.debug == 0
    ensures var q := Request(p, layer, tid);
      q.handle.Some? ==> Release(q.pool, layer, q.handle.value) == Released(p, true)
  {
    var q := Request(p, layer, tid);
    if q.handle.Some? {
      var i := FirstShareable(p.conns, layer, tid, 0).value;
      var h := p.conns[i].handle;
      assert FirstHeld(q.pool.conns, layer, h, 0) == Some(i) by {
        assert Holds(q.pool.conns[i], layer, h);
        assert forall j :: 0 <= j < i ==> q.pool.conns[j] == p.conns[j];
        FirstHeldAt(q.pool.conns, layer, h, i);
      }
      assert Dropped(q.pool.conns[i]) == p.conns[i];
      assert q.pool.conns[i := p.conns[i]] == p.conns;
    }
  }

  /** The first entry holding `handle` is at `i` when it holds it and no
      earlier entry does. */
  lemma FirstHeldAt(conns: seq<Conn>, layer: Layer, handle: Handle, i: nat)
    requires layer.connection.Some? && i < |conns| && Holds(conns[i], layer, handle)
    requires forall j :: 0 <= j < i ==> !Holds(conns[j], layer, handle)
    ensures FirstHeld(conns, layer, handle, 0) == Some(i)
  {
  }
}
