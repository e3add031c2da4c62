/** `server_interface<T>`: the list of live connections, the vector of
    client ids and the shared incoming queue, driven by the accept handler,
    broadcasts and the application's update calls. The virtual hooks are
    fixed when the server is built: whether onClientConnect approves, and
    whether onClientDisconnect is the base one (which erases the client's
    id) or an override that leaves `ids` alone. The calls the hooks receive
    are logged. */
module NetServer {
  import opened Bytes
  import opened NetMessage
  import opened NetQueue
  import opened NetConnection
  import opened P2dUtil

  /** `ids` with every id in `gone` erased, the rest in order: the
      erase-remove idiom, applied once per id. */
  function Without(ids: seq<i32>, gone: set<i32>): seq<i32>
  {
    if ids == [] then []
    else (if ids[0] in gone then [] else [ids[0]]) + Without(ids[1..], gone)
  }

  /** Erasing keeps exactly the other ids, each as often as before, and
      erasing ids that are absent changes nothing. */
  lemma {:induction false} WithoutKeepsOthers(ids: seq<i32>, gone: set<i32>)
    ensures forall x :: x in Without(ids, gone) <==> x in ids && x !in gone
    ensures forall x :: x !in gone ==> multiset(Without(ids, gone))[x] == multiset(ids)[x]
    ensures (forall x :: x in ids ==> x !in gone) ==> Without(ids, gone) == ids
  {
    if ids != [] {
      WithoutKeepsOthers(ids[1..], gone);
      assert ids == [ids[0]] + ids[1..];
    }
  }

  /** Erasing one id after another is erasing them all. */
  lemma {:induction false} WithoutWithout(ids: seq<i32>, a: set<i32>, b: set<i32>)
    ensures Without(Without(ids, a), b) == Without(ids, a + b)
  {
    if ids != [] {
      var h, t := ids[0], ids[1..];
      WithoutWithout(t, a, b);
      if h in a {
        assert Without(ids, a) == Without(t, a);
      } else {
        var wa := Without(ids, a);
        assert wa == [h] + Without(t, a);
        assert wa != [] && wa[0] == h && wa[1..] == Without(t, a);
      }
    }
  }

  /** The ids a vector holds; sorting `idsToRemove` and binary-searching it
      is a membership test in this set. */
  function Members(s: seq<i32>): (r: set<i32>)
    ensures forall x :: x in r <==> x in s
  {
    set x | x in s
  }

  /** The ids sweep of messageAllClients as written: a dead id is swapped
      with the last one and popped, and `i` advances anyway, so the id that
      was swapped in is never examined. */
  function SweptAsWritten(ids: seq<i32>, i: nat, dead: set<i32>): seq<i32>
    decreases |ids| - i
  {
    if i >= |ids| then ids
    else if ids[i] in dead then SweptAsWritten(ids[i := ids[|ids| - 1]][..|ids| - 1], i + 1, dead)
    else SweptAsWritten(ids, i + 1, dead)
  }

  /** The sweep as intended: after a swap-and-pop, the same position is
      examined again. */
  function Swept(ids: seq<i32>, i: nat, dead: set<i32>): seq<i32>
    decreases |ids| - i
  {
    if i >= |ids| then ids
    else if ids[i] in dead then Swept(ids[i := ids[|ids| - 1]][..|ids| - 1], i, dead)
    else Swept(ids, i + 1, dead)
  }

  /** Swap-and-pop of a dead id removes one occurrence of it and keeps the
      examined prefix. */
  lemma SwapPop(ids: seq<i32>, i: nat)
    requires i < |ids|
    ensures var r := ids[i := ids[|ids| - 1]][..|ids| - 1];
      && r[..i] == ids[..i]
      && multiset(r) + multiset{ids[i]} == multiset(ids)
  {
    var n := |ids| - 1;
    var r := ids[i := ids[n]][..n];
    if i < n {
      assert ids == ids[..i] + [ids[i]] + ids[i + 1..n] + [ids[n]];
      assert r == ids[..i] + [ids[n]] + ids[i + 1..n];
    } else {
      assert ids == ids[..i] + [ids[i]];
      assert r == ids[..i];
    }
  }

  /** The intended sweep leaves no dead id and every other id as many times
      as before. */
  lemma {:induction false} SweptRemovesDead(ids: seq<i32>, i: nat, dead: set<i32>)
    requires i <= |ids|
    requires forall j :: 0 <= j < i ==> ids[j] !in dead
    ensures forall x :: x in Swept(ids, i, dead) ==> x !in dead
    ensures forall x :: x !in dead ==> multiset(Swept(ids, i, dead))[x] == multiset(ids)[x]
    decreases |ids| - i
  {
    if i < |ids| {
      if ids[i] in dead {
        var r := ids[i := ids[|ids| - 1]][..|ids| - 1];
        SwapPop(ids, i);
        assert forall j :: 0 <= j < i ==> r[j] == ids[j];
        SweptRemovesDead(r, i, dead);
      } else {
        SweptRemovesDead(ids, i + 1, dead);
      }
    } else {
      assert forall x :: x in ids ==> x !in dead by {
        forall x | x in ids ensures x !in dead {
          var j :| 0 <= j < |ids| && ids[j] == x;
        }
      }
    }
  }

  /** With no dead id left to find, the intended sweep changes nothing. */
  lemma {:induction false} SweptNothingDead(ids: seq<i32>, i: nat, dead: set<i32>)
    requires forall x :: x in ids ==> x !in dead
    ensures Swept(ids, i, dead) == ids
    decreases |ids| - i
  {
    if i < |ids| {
      SweptNothingDead(ids, i + 1, dead);
    }
  }

  /** The sweep as written never loses an id that is not dead, and never
      adds anything: each id not in `dead` keeps its multiplicity and the
      result is a sub-multiset of the input. */
  lemma {:induction false} SweptAsWrittenKeeps(ids: seq<i32>, i: nat, dead: set<i32>)
    ensures forall x :: x !in dead ==> multiset(SweptAsWritten(ids, i, dead))[x] == multiset(ids)[x]
    ensures multiset(SweptAsWritten(ids, i, dead)) <= multiset(ids)
    decreases |ids| - i
  {
    if i < |ids| {
      if ids[i] in dead {
        var r := ids[i := ids[|ids| - 1]][..|ids| - 1];
        SwapPop(ids, i);
        SweptAsWrittenKeeps(r, i + 1, dead);
      } else {
        SweptAsWrittenKeeps(ids, i + 1, dead);
      }
    }
  }

  /** With no dead id present, the sweep as written changes nothing; this is
      the case after the base onClientDisconnect has erased them. */
  lemma {:induction false} SweptAsWrittenNothingDead(ids: seq<i32>, i: nat, dead: set<i32>)
    requires forall x :: x in ids ==> x !in dead
    ensures SweptAsWritten(ids, i, dead) == ids
    decreases |ids| - i
  {
    if i < |ids| {
      SweptAsWrittenNothingDead(ids, i + 1, dead);
    }
  }

  /** What messageAllClients leaves in `ids`: the hook's erasures (if it is
      the base one) followed by the sweep as written keep every live id with
      its multiplicity and add nothing; with the base hook exactly the live
      ids remain. */
  lemma HookedThenSwept(ids0: seq<i32>, dead: set<i32>, erase: bool)
    ensures var r := SweptAsWritten(if erase then Without(ids0, dead) else ids0, 0, dead);
      && (forall x :: x !in dead ==> multiset(r)[x] == multiset(ids0)[x])
      && multiset(r) <= multiset(ids0)
      && (erase ==> r == Without(ids0, dead))
      && (erase ==> forall x :: x in r <==> x in ids0 && x !in dead)
  {
    var hooked := if erase then Without(ids0, dead) else ids0;
    WithoutKeepsOthers(ids0, dead);
    SweptAsWrittenKeeps(hooked, 0, dead);
    if erase {
      SweptAsWrittenNothingDead(hooked, 0, dead);
      forall x | x in dead
        ensures multiset(hooked)[x] == 0
      {
      }
    }
  }

  /** As written, two dead ids [1, 2] leave 2 behind. */
  lemma SweepSkipsSwappedIn()
    ensures SweptAsWritten([1, 2], 0, {1, 2}) == [2]
    ensures Swept([1, 2], 0, {1, 2}) == []
  {
    var a: seq<i32> := [1, 2];
    assert a[0 := a[1]][..1] == [2];
    assert SweptAsWritten([2], 1, {1, 2}) == [2];
    assert Swept([2], 0, {1, 2}) == Swept([], 0, {1, 2});
  }

  /** The sweep loop of messageAllClients as written. */
  method SweepIdsAsWritten(ids: seq<i32>, idsToRemove: seq<i32>) returns (r: seq<i32>)
    ensures r == SweptAsWritten(ids, 0, Members(idsToRemove))
    ensures forall x :: x !in idsToRemove ==> multiset(r)[x] == multiset(ids)[x]
    ensures multiset(r) <= multiset(ids)
    ensures (forall x :: x in ids ==> x !in idsToRemove) ==> r == ids
  {
    var dead := Members(idsToRemove);
    r := ids;
    var i := 0;
    while i < |r|
      invariant i <= |r| + 1
      invariant SweptAsWritten(r, i, dead) == SweptAsWritten(ids, 0, dead)
      decreases |r| + 1 - i
    {
      if r[i] in dead {
        r := r[i := r[|r| - 1]][..|r| - 1];
      }
      i := i + 1;
    }
    SweptAsWrittenKeeps(ids, 0, dead);
    if forall x :: x in ids ==> x !in idsToRemove {
      SweptAsWrittenNothingDead(ids, 0, dead);
    }
  }

  /** The sweep with the position re-examined after a swap: every dead id
      goes, every other id stays with its multiplicity (order is not kept). */
  method SweepIds(ids: seq<i32>, idsToRemove: seq<i32>) returns (r: seq<i32>)
    ensures r == Swept(ids, 0, Members(idsToRemove))
    ensures forall x :: x in r <==> x in ids && x !in idsToRemove
    ensures forall x :: x !in idsToRemove ==> multiset(r)[x] == multiset(ids)[x]
  {
    var dead := Members(idsToRemove);
    r := ids;
    var i := 0;
    while i < |r|
      invariant i <= |r|
      invariant Swept(r, i, dead) == Swept(ids, 0, dead)
      decreases |r| - i
    {
      if r[i] in dead {
        r := r[i := r[|r| - 1]][..|r| - 1];
      } else {
        i := i + 1;
      }
    }
    SweptRemovesDead(ids, 0, dead);
    forall x | x in r
      ensures x in ids && x !in idsToRemove
    {
      assert x !in dead;
      assert multiset(ids)[x] == multiset(r)[x] > 0;
    }
    forall x | x in ids && x !in idsToRemove
      ensures x in r
    {
      assert x !in dead;
      assert multiset(r)[x] == multiset(ids)[x] > 0;
    }
  }

  /** generateUniqueID: a fresh Util (state 0) draws until the id is not in
      `ids`. The source loops for ever if every draw is taken; here the
      search stops after `Period` draws with `found` false. */
  method GenerateUniqueId(ids: seq<i32>) returns (found: bool, id: i32, ghost draws: nat)
    ensures 1 <= draws <= Period && id == Draw(0, draws)
    ensures found <==> id !in ids
    ensures forall k :: 1 <= k < draws ==> Draw(0, k) in ids
    ensures !found ==> draws == Period
  {
    var u := new Util();
    var raw := u.Random();
    id := ToSigned(raw);
    var tries := 1;
    while id in ids && tries < Period
      invariant 1 <= tries <= Period
      invariant u.lehmer == StateAfter(0, tries) && id == Draw(0, tries)
      invariant forall k :: 1 <= k < tries ==> Draw(0, k) in ids
      decreases Period - tries
    {
      raw := u.Random();
      id := ToSigned(raw);
      tries := tries + 1;
    }
    found := id !in ids;
    draws := tries;
  }

  ghost predicate Distinct(cs: seq<Connection>)
  {
    forall i, j :: 0 <= i < j < |cs| ==> cs[i] != cs[j]
  }

  /** Each connection's isConnected(). */
  ghost function OpenFlags(cs: seq<Connection>): (r: seq<bool>)
    reads cs
    ensures |r| == |cs| && forall i :: 0 <= i < |cs| ==> r[i] == cs[i].open
  {
    seq(|cs|, i requires 0 <= i < |cs| reads cs => cs[i].open)
  }

  /** Each connection's getID(), as the `int` that `ids` holds. */
  ghost function IdsOf(cs: seq<Connection>): (r: seq<i32>)
    reads cs
    ensures |r| == |cs| && forall i :: 0 <= i < |cs| ==> r[i] == ToSigned(cs[i].id)
  {
    seq(|cs|, i requires 0 <= i < |cs| reads cs => ToSigned(cs[i].id))
  }

  /** The connections whose flag is `keep`, in order. */
  function Kept(cs: seq<Connection>, open: seq<bool>, keep: bool): seq<Connection>
    requires |open| == |cs|
  {
    if cs == [] then []
    else (if open[0] == keep then [cs[0]] else []) + Kept(cs[1..], open[1..], keep)
  }

  /** The ids of the connections whose flag is false. */
  function DeadIdsOf(cids: seq<i32>, open: seq<bool>): set<i32>
    requires |open| == |cids|
  {
    if cids == [] then {}
    else (if open[0] then {} else {cids[0]}) + DeadIdsOf(cids[1..], open[1..])
  }

  /** The connections that are still open, in order. */
  ghost function Live(cs: seq<Connection>): seq<Connection>
    reads cs
  {
    Kept(cs, OpenFlags(cs), true)
  }

  /** The connections that have closed, in order. */
  ghost function Dead(cs: seq<Connection>): seq<Connection>
    reads cs
  {
    Kept(cs, OpenFlags(cs), false)
  }

  /** The ids of the closed connections. */
  ghost function DeadIds(cs: seq<Connection>): set<i32>
    reads cs
  {
    DeadIdsOf(IdsOf(cs), OpenFlags(cs))
  }

  /** `m_deqConnections` with its null entries erased. */
  function NonNull(slots: seq<Connection?>): seq<Connection>
  {
    if slots == [] then []
    else (if slots[0] != null then [slots[0]] else []) + NonNull(slots[1..])
  }

  /** Filtering keeps a sublist: no new connections, no new duplicates. */
  lemma {:induction false} KeptDistinct(cs: seq<Connection>, open: seq<bool>, keep: bool)
    requires |open| == |cs| && Distinct(cs)
    ensures forall c :: c in Kept(cs, open, keep) ==> c in cs
    ensures Distinct(Kept(cs, open, keep))
  {
    if cs != [] {
      var rest := Kept(cs[1..], open[1..], keep);
      KeptDistinct(cs[1..], open[1..], keep);
      assert cs[0] !in cs[1..];
      assert cs[0] !in rest;
      assert Kept(cs, open, keep) == (if open[0] == keep then [cs[0]] else []) + rest;
    }
  }

  lemma {:induction false} KeptAppend(cs: seq<Connection>, open: seq<bool>, c: Connection, b: bool, keep: bool)
    requires |open| == |cs|
    ensures Kept(cs + [c], open + [b], keep) == Kept(cs, open, keep) + (if b == keep then [c] else [])
  {
    var cs', open' := cs + [c], open + [b];
    if cs == [] {
      assert cs' == [c] && open' == [b];
      assert cs'[1..] == [] && open'[1..] == [];
    } else {
      assert cs'[0] == cs[0] && open'[0] == open[0];
      assert cs'[1..] == cs[1..] + [c];
      assert open'[1..] == open[1..] + [b];
      KeptAppend(cs[1..], open[1..], c, b, keep);
    }
  }

  lemma {:induction false} DeadIdsAppend(cids: seq<i32>, open: seq<bool>, x: i32, b: bool)
    requires |open| == |cids|
    ensures DeadIdsOf(cids + [x], open + [b]) == DeadIdsOf(cids, open) + (if b then {} else {x})
  {
    var cids', open' := cids + [x], open + [b];
    if cids == [] {
      assert cids'[1..] == [] && open'[1..] == [];
    } else {
      assert cids'[1..] == cids[1..] + [x];
      assert open'[1..] == open[1..] + [b];
      DeadIdsAppend(cids[1..], open[1..], x, b);
    }
  }

  /** One more connection examined: the closed list and the dead ids grow
      by that connection when it is closed. */
  lemma PrefixStep(cs: seq<Connection>, open: seq<bool>, cids: seq<i32>, k: nat)
    requires |cs| == |open| == |cids| && k < |cs|
    ensures Kept(cs[..k + 1], open[..k + 1], false) == Kept(cs[..k], open[..k], false) + (if open[k] then [] else [cs[k]])
    ensures DeadIdsOf(cids[..k + 1], open[..k + 1]) == DeadIdsOf(cids[..k], open[..k]) + (if open[k] then {} else {cids[k]})
  {
    assert cs[..k + 1] == cs[..k] + [cs[k]];
    assert open[..k + 1] == open[..k] + [open[k]];
    assert cids[..k + 1] == cids[..k] + [cids[k]];
    KeptAppend(cs[..k], open[..k], cs[k], open[k], false);
    DeadIdsAppend(cids[..k], open[..k], cids[k], open[k]);
  }

  /** With nothing closed, no id is dead. */
  lemma {:induction false} NoDeadNoIds(cs: seq<Connection>, open: seq<bool>, cids: seq<i32>)
    requires |open| == |cs| == |cids| && Kept(cs, open, false) == []
    ensures DeadIdsOf(cids, open) == {}
  {
    if cs != [] {
      NoDeadNoIds(cs[1..], open[1..], cids[1..]);
    }
  }

  /** With nothing closed, every connection is kept. */
  lemma {:induction false} KeptAll(cs: seq<Connection>, open: seq<bool>)
    requires |open| == |cs| && Kept(cs, open, false) == []
    ensures Kept(cs, open, true) == cs
  {
    if cs != [] {
      KeptAll(cs[1..], open[1..]);
    }
  }

  /** Nulling the closed entries and erasing the nulls keeps the open
      connections in order. */
  lemma {:induction false} NonNullOfSlots(cs: seq<Connection>, open: seq<bool>, slots: seq<Connection?>)
    requires |slots| == |cs| == |open|
    requires forall i :: 0 <= i < |cs| ==> slots[i] == (if open[i] then cs[i] else null)
    ensures NonNull(slots) == Kept(cs, open, true)
  {
    if cs != [] {
      NonNullOfSlots(cs[1..], open[1..], slots[1..]);
    }
  }

  /** What the server can observe of a connection: isConnected(), getID()
      as an int, the read in progress, the held incoming message and the
      outgoing queue. */
  datatype Peer = Peer(open: bool, id: i32, reading: ReadStage, temp: Frame, outQ: seq<Frame>)

  ghost function PeerOf(c: Connection): Peer
    reads c
  {
    Peer(c.open, ToSigned(c.id), c.reading, c.temp, c.outQ)
  }

  /** The same connection with `msg` appended to its outgoing queue. */
  function Posted(p: Peer, msg: Frame): Peer
  {
    p.(outQ := p.outQ + [msg])
  }

  ghost function Peers(cs: seq<Connection>): (r: seq<Peer>)
    reads cs
    ensures |r| == |cs| && forall i :: 0 <= i < |cs| ==> r[i] == PeerOf(cs[i])
  {
    if cs == [] then [] else [PeerOf(cs[0])] + Peers(cs[1..])
  }

  /** The messageAllClients loop after `k` connections: every connection is
      still a valid server side one, the first `k` open ones other than
      `ignore` have `msg` queued, and nothing else changed since `s0`. */
  ghost predicate Broadcasted(cs: seq<Connection>, s0: seq<Peer>, k: nat, msg: Frame, ignore: Connection?,
                              q: TsQueue<OwnedMessage>)
    reads cs
  {
    && |s0| == |cs|
    && forall i :: 0 <= i < |cs| ==>
      && cs[i].Valid() && cs[i].owner == ServerSide && cs[i].inQ == q
      && PeerOf(cs[i]) == (if i < k && s0[i].open && cs[i] != ignore then Posted(s0[i], msg) else s0[i])
  }

  /** The bookkeeping of the messageAllClients loop after `k` connections:
      the closed ones among them handed to onClientDisconnect, their ids
      collected (and erased by the base hook), `invalid` set if any. */
  ghost predicate Tally(cs: seq<Connection>, open: seq<bool>, cids: seq<i32>, k: nat, erase: bool,
                        dropped0: seq<Connection>, ids0: seq<i32>,
                        dropped: seq<Connection>, ids: seq<i32>, idsToRemove: seq<i32>, invalid: bool)
  {
    && |open| == |cs| == |cids| && k <= |cs|
    && dropped == dropped0 + Kept(cs[..k], open[..k], false)
    && (forall x :: x in idsToRemove <==> x in DeadIdsOf(cids[..k], open[..k]))
    && ids == (if erase then Without(ids0, DeadIdsOf(cids[..k], open[..k])) else ids0)
    && (invalid <==> Kept(cs[..k], open[..k], false) != [])
  }

  lemma TallyStart(cs: seq<Connection>, open: seq<bool>, cids: seq<i32>, erase: bool, dropped0: seq<Connection>, ids0: seq<i32>)
    requires |open| == |cs| == |cids|
    ensures Tally(cs, open, cids, 0, erase, dropped0, ids0, dropped0, ids0, [], false)
  {
    WithoutKeepsOthers(ids0, {});
    assert cs[..0] == [] && open[..0] == [] && cids[..0] == [];
  }

  lemma TallyStep(cs: seq<Connection>, open: seq<bool>, cids: seq<i32>, k: nat, erase: bool,
                  dropped0: seq<Connection>, ids0: seq<i32>,
                  dropped: seq<Connection>, ids: seq<i32>, idsToRemove: seq<i32>, invalid: bool)
    requires k < |cs| && Tally(cs, open, cids, k, erase, dropped0, ids0, dropped, ids, idsToRemove, invalid)
    ensures var dead := !open[k];
      Tally(cs, open, cids, k + 1, erase, dropped0, ids0,
            dropped + (if dead then [cs[k]] else []),
            if dead && erase then Without(ids, {cids[k]}) else ids,
            idsToRemove + (if dead then [cids[k]] else []),
            invalid || dead)
  {
    PrefixStep(cs, open, cids, k);
    var gone := DeadIdsOf(cids[..k], open[..k]);
    if !open[k] {
      assert DeadIdsOf(cids[..k + 1], open[..k + 1]) == gone + {cids[k]};
      if erase {
        WithoutWithout(ids0, gone, {cids[k]});
      }
    } else {
      assert DeadIdsOf(cids[..k + 1], open[..k + 1]) == gone;
    }
  }

  lemma TallyEnd(cs: seq<Connection>, open: seq<bool>, cids: seq<i32>, k: nat, erase: bool,
                 dropped0: seq<Connection>, ids0: seq<i32>,
                 dropped: seq<Connection>, ids: seq<i32>, idsToRemove: seq<i32>, invalid: bool)
    requires k == |cs| && Tally(cs, open, cids, k, erase, dropped0, ids0, dropped, ids, idsToRemove, invalid)
    ensures dropped == dropped0 + Kept(cs, open, false)
    ensures forall x :: x in idsToRemove <==> x in DeadIdsOf(cids, open)
    ensures ids == if erase then Without(ids0, DeadIdsOf(cids, open)) else ids0
    ensures invalid <==> Kept(cs, open, false) != []
  {
    assert cs[..|cs|] == cs && open[..|cs|] == open && cids[..|cs|] == cids;
  }

  class Server {
    /** m_qMessagesIn */
    const inQ: TsQueue<OwnedMessage>
    const versionNumber: real
    const scramble: (real, bv64) -> bv64
    /** what onClientConnect answers */
    const approve: bool
    /** onClientDisconnect is the base hook, which erases the client's id */
    const eraseOnDisconnect: bool

    /** m_deqConnections */
    var conns: seq<Connection>
    var ids: seq<i32>
    /** the messages handed to onMessage, in order */
    var handled: seq<OwnedMessage>
    /** the connections handed to onClientDisconnect, in order */
    var dropped: seq<Connection>

    /** Every connection is a valid server side one feeding this server's
        queue, and none is listed twice. */
    ghost predicate Valid()
      reads this, conns
    {
      && (forall c :: c in conns ==> c.Valid() && c.owner == ServerSide && c.inQ == inQ)
      && Distinct(conns)
    }

    constructor (versionNumber: real, scramble: (real, bv64) -> bv64, approve: bool, eraseOnDisconnect: bool)
      ensures Valid() && fresh(inQ) && inQ.items == []
      ensures this.versionNumber == versionNumber && this.scramble == scramble
      ensures this.approve == approve && this.eraseOnDisconnect == eraseOnDisconnect
      ensures conns == [] && ids == [] && handled == [] && dropped == []
    {
      inQ := new TsQueue<OwnedMessage>();
      this.versionNumber := versionNumber;
      this.scramble := scramble;
      this.approve := approve;
      this.eraseOnDisconnect := eraseOnDisconnect;
      conns, ids, handled, dropped := [], [], [], [];
    }

    /** The async_accept handler on success: build the connection; if
        onClientConnect approves, give it the server's version, append it,
        draw an id not in `ids`, start the handshake and record the id. */
    method OnAccept(clock: bv64) returns (c: Connection, found: bool, id: i32)
      requires Valid()
      modifies this
      ensures Valid() && fresh(c)
      ensures c.owner == ServerSide && c.inQ == inQ && c.handshakeCheck == scramble(1.0, clock)
      ensures handled == old(handled) && dropped == old(dropped)
      ensures !approve ==> conns == old(conns) && ids == old(ids)
      ensures approve ==> conns == old(conns) + [c] && c.versionNumber == versionNumber
      ensures approve && found ==>
        && id !in old(ids) && ids == old(ids) + [id]
        && c.id == ToUnsigned(id) && c.reading == ReadingValidation && c.validationWrite
      ensures approve && !found ==> ids == old(ids)
    {
      if approve {
        c, found, id := Admit(clock);
        conns := conns + [c];
        if found {
          ids := ids + [id];
        }
      } else {
        c := new Connection(ServerSide, clock, scramble, inQ);
        found, id := false, 0;
      }
    }

    /** The approved branch's work on the new connection: version, a fresh
        id and the start of the handshake. */
    method Admit(clock: bv64) returns (c: Connection, found: bool, id: i32)
      ensures fresh(c) && c.Valid()
      ensures c.owner == ServerSide && c.inQ == inQ && c.handshakeCheck == scramble(1.0, clock)
      ensures c.versionNumber == versionNumber
      ensures found ==> id !in ids && c.id == ToUnsigned(id) && c.reading == ReadingValidation && c.validationWrite
    {
      c := new Connection(ServerSide, clock, scramble, inQ);
      c.versionNumber := versionNumber;
      ghost var draws;
      found, id, draws := GenerateUniqueId(ids);
      if found {
        c.ConnectToClient(ToUnsigned(id));
      }
    }

    /** The base onClientDisconnect (erase the id) or an override that only
        observes the call. */
    method OnClientDisconnect(c: Connection)
      modifies this
      ensures conns == old(conns) && handled == old(handled)
      ensures dropped == old(dropped) + [c]
      ensures ids == if eraseOnDisconnect then Without(old(ids), {ToSigned(c.id)}) else old(ids)
    {
      dropped := dropped + [c];
      if eraseOnDisconnect {
        ids := Without(ids, {ToSigned(c.id)});
      }
    }

    /** messageClient for a connected client. */
    method MessageClient(c: Connection, msg: Frame)
      requires c.Valid() && c.open
      modifies c
      ensures c.Valid() && c.InboundSame()
      ensures c.outQ == old(c.outQ) + [msg]
    {
      c.Send(msg);
    }

    /** messageAllClients: send to every open connection but `ignore`; hand
        every closed one to onClientDisconnect, sweep its id out of `ids` and
        drop it from the list. */
    method MessageAllClients(msg: Frame, ignore: Connection?)
      requires Valid()
      modifies this, conns
      ensures Valid()
      ensures conns == old(Live(conns))
      ensures forall i :: 0 <= i < |old(conns)| ==>
        PeerOf(old(conns)[i]) == (if old(conns[i].open) && old(conns)[i] != ignore
                                  then Posted(old(PeerOf(conns[i])), msg) else old(PeerOf(conns[i])))
      ensures dropped == old(dropped) + old(Dead(conns))
      ensures handled == old(handled)
      ensures ids == SweptAsWritten(if eraseOnDisconnect then Without(old(ids), old(DeadIds(conns))) else old(ids),
                                    0, old(DeadIds(conns)))
      ensures forall x :: x !in old(DeadIds(conns)) ==> multiset(ids)[x] == multiset(old(ids))[x]
      ensures multiset(ids) <= multiset(old(ids))
      ensures eraseOnDisconnect ==> ids == Without(old(ids), old(DeadIds(conns)))
      ensures eraseOnDisconnect ==> forall x :: x in ids <==> x in old(ids) && x !in old(DeadIds(conns))
    {
      ghost var open, cids, ids0 := OpenFlags(conns), IdsOf(conns), ids;
      var slots, idsToRemove, invalid := Broadcast(msg, ignore);
      Compact(open, cids, ids0, slots, idsToRemove, invalid);
    }

    /** The end of messageAllClients: if any entry was nulled, erase the null
        entries and sweep the collected ids out of `ids` with the loop as
        written, which skips the id swapped into a freed position. */
    method Compact(ghost open: seq<bool>, ghost cids: seq<i32>, ghost ids0: seq<i32>,
                   slots: seq<Connection?>, idsToRemove: seq<i32>, invalid: bool)
      requires Valid() && |open| == |conns| && |cids| == |conns| && |slots| == |conns|
      requires forall i :: 0 <= i < |conns| ==> slots[i] == (if open[i] then conns[i] else null)
      requires forall x :: x in idsToRemove <==> x in DeadIdsOf(cids, open)
      requires invalid <==> Kept(conns, open, false) != []
      requires ids == if eraseOnDisconnect then Without(ids0, DeadIdsOf(cids, open)) else ids0
      modifies this
      ensures Valid() && conns == Kept(old(conns), open, true)
      ensures dropped == old(dropped) && handled == old(handled)
      ensures ids == SweptAsWritten(old(ids), 0, DeadIdsOf(cids, open))
      ensures forall x :: x !in DeadIdsOf(cids, open) ==> multiset(ids)[x] == multiset(ids0)[x]
      ensures multiset(ids) <= multiset(ids0)
      ensures eraseOnDisconnect ==> ids == Without(ids0, DeadIdsOf(cids, open))
      ensures eraseOnDisconnect ==> forall x :: x in ids <==> x in ids0 && x !in DeadIdsOf(cids, open)
    {
      ghost var dead := DeadIdsOf(cids, open);
      assert Members(idsToRemove) == dead;
      NonNullOfSlots(conns, open, slots);
      KeptDistinct(conns, open, true);
      HookedThenSwept(ids0, dead, eraseOnDisconnect);
      if invalid {
        var swept := SweepIdsAsWritten(ids, idsToRemove);
        ids := swept;
        conns := NonNull(slots);
      } else {
        KeptAll(conns, open);
        NoDeadNoIds(conns, open, cids);
        SweptAsWrittenNothingDead(ids, 0, dead);
      }
    }

    /** The state of the messageAllClients loop after `k` connections,
        against the snapshot `s0` of the connections (with flags `open` and
        ids `cids`) and the logs `dropped0` and `ids0` taken before it. */
    ghost predicate Sending(k: nat, msg: Frame, ignore: Connection?, cs: seq<Connection>, s0: seq<Peer>,
                            open: seq<bool>, cids: seq<i32>, dropped0: seq<Connection>, ids0: seq<i32>,
                            slots: seq<Connection?>, idsToRemove: seq<i32>, invalid: bool)
      reads this, cs
    {
      && conns == cs && Distinct(cs) && k <= |cs|
      && |slots| == |cs| && |s0| == |cs| && |open| == |cs| && |cids| == |cs|
      && (forall i :: 0 <= i < |cs| ==> s0[i].open == open[i] && s0[i].id == cids[i])
      && Broadcasted(cs, s0, k, msg, ignore, inQ)
      && (forall i :: 0 <= i < |cs| ==> slots[i] == (if i < k && !open[i] then null else cs[i]))
      && Tally(cs, open, cids, k, eraseOnDisconnect, dropped0, ids0, dropped, ids, idsToRemove, invalid)
    }

    /** The loop of messageAllClients: the closed connections' entries are
        nulled in `slots` and their ids collected. */
    method Broadcast(msg: Frame, ignore: Connection?) returns (slots: seq<Connection?>, idsToRemove: seq<i32>, invalid: bool)
      requires Valid()
      modifies this, conns
      ensures Valid() && conns == old(conns) && handled == old(handled)
      ensures forall i :: 0 <= i < |conns| ==>
        PeerOf(conns[i]) == (if old(conns[i].open) && conns[i] != ignore
                             then Posted(old(PeerOf(conns[i])), msg) else old(PeerOf(conns[i])))
      ensures |slots| == |conns|
      ensures forall i :: 0 <= i < |conns| ==> slots[i] == (if old(conns[i].open) then conns[i] else null)
      ensures dropped == old(dropped) + old(Dead(conns))
      ensures forall x :: x in idsToRemove <==> x in old(DeadIds(conns))
      ensures ids == if eraseOnDisconnect then Without(old(ids), old(DeadIds(conns))) else old(ids)
      ensures invalid <==> old(Dead(conns)) != []
    {
      ghost var cs, open, cids, s0 := conns, OpenFlags(conns), IdsOf(conns), Peers(conns);
      ghost var dropped0, ids0 := dropped, ids;
      slots := conns;
      idsToRemove := [];
      invalid := false;
      var k := 0;
      TallyStart(cs, open, cids, eraseOnDisconnect, dropped, ids);
      while k < |conns|
        invariant handled == old(handled)
        invariant Sending(k, msg, ignore, cs, s0, open, cids, dropped0, ids0, slots, idsToRemove, invalid)
        decreases |cs| - k
      {
        slots, idsToRemove, invalid := Step(k, msg, ignore, cs, s0, open, cids, dropped0, ids0, slots, idsToRemove, invalid);
        k := k + 1;
      }
      TallyEnd(cs, open, cids, k, eraseOnDisconnect, dropped0, ids0, dropped, ids, idsToRemove, invalid);
    }

    /** One pass of that loop, on the `k`-th connection: send to it if it is
        open and not `ignore`; if it is closed, report it to
        onClientDisconnect, collect its id and null its entry. */
    method Step(k: nat, msg: Frame, ignore: Connection?, ghost cs: seq<Connection>, ghost s0: seq<Peer>,
                ghost open: seq<bool>, ghost cids: seq<i32>, ghost dropped0: seq<Connection>, ghost ids0: seq<i32>,
                slots: seq<Connection?>, idsToRemove: seq<i32>, invalid: bool)
      returns (slots': seq<Connection?>, idsToRemove': seq<i32>, invalid': bool)
      requires k < |cs| && Sending(k, msg, ignore, cs, s0, open, cids, dropped0, ids0, slots, idsToRemove, invalid)
      modifies this, cs[k]
      ensures handled == old(handled)
      ensures Sending(k + 1, msg, ignore, cs, s0, open, cids, dropped0, ids0, slots', idsToRemove', invalid')
    {
      ghost var droppedK, idsK := dropped, ids;
      var c := conns[k];
      slots', idsToRemove', invalid' := slots, idsToRemove, invalid;
      if c.open {
        if c != ignore {
          c.Send(msg);
        }
      } else {
        OnClientDisconnect(c);
        idsToRemove' := idsToRemove + [ToSigned(c.id)];
        slots' := slots[k := null];
        invalid' := true;
      }
      forall i | 0 <= i < |cs| && i != k
        ensures PeerOf(cs[i]) == old(PeerOf(cs[i])) && cs[i].Valid()
      {
        assert cs[i] != c;
      }
      TallyStep(cs, open, cids, k, eraseOnDisconnect, dropped0, ids0, droppedK, idsK, idsToRemove, invalid);
    }

    /** update(maxMessages): hand queued messages to onMessage, oldest first,
        until `maxMessages` have been handled or the queue is empty. */
    method Update(maxMessages: nat)
      requires Valid()
      modifies this, inQ
      ensures Valid()
      ensures var n := if maxMessages < |old(inQ.items)| then maxMessages else |old(inQ.items)|;
        && handled == old(handled) + old(inQ.items)[..n]
        && inQ.items == old(inQ.items)[n..]
      ensures conns == old(conns) && ids == old(ids) && dropped == old(dropped)
    {
      var messageCount := 0;
      var empty := inQ.Empty();
      while messageCount < maxMessages && !empty
        invariant messageCount <= maxMessages && messageCount <= |old(inQ.items)|
        invariant handled == old(handled) + old(inQ.items)[..messageCount]
        invariant inQ.items == old(inQ.items)[messageCount..]
        invariant empty <==> inQ.items == []
        invariant conns == old(conns) && ids == old(ids) && dropped == old(dropped)
        decreases |inQ.items|
      {
        var m := inQ.PopFront();
        handled := handled + [m];
        messageCount := messageCount + 1;
        empty := inQ.Empty();
      }
    }
  }
}
