/** The connection table of the udpman server, a deque kept sorted by connection id, and the
    steps of the server's message loop on it. */
module UdpmanServer {
  import opened Bytes
  import opened UdpmanMessage

  const ID_MAX: nat := 0xFFFF

  /** Where a connection came from. */
  datatype Origin = Origin(uuid: seq<byte>, initialData: seq<byte>, src: SocketAddr, dst: SocketAddr)

  /** A live connection and the payloads its channel has accepted. */
  datatype Conn = Conn(id: u16, origin: Origin, inbox: seq<seq<byte>>)

  // ---- the table ---------------------------------------------------------------------

  ghost predicate Sorted(s: seq<Conn>) {
    forall i, j :: 0 <= i < j < |s| ==> s[i].id < s[j].id
  }

  ghost predicate Has(s: seq<Conn>, id: u16) {
    exists i :: 0 <= i < |s| && s[i].id == id
  }

  /** The finite map a deque stands for. */
  ghost function AsMap(s: seq<Conn>): (m: map<u16, Conn>)
    ensures forall id :: id in m <==> Has(s, id)
    ensures forall id :: id in m ==> m[id] in s && m[id].id == id
  {
    var ids := set i | 0 <= i < |s| :: s[i].id;
    map id | id in ids :: var i :| 0 <= i < |s| && s[i].id == id; s[i]
  }

  lemma AsMapAt(s: seq<Conn>, i: nat)
    requires Sorted(s) && i < |s|
    ensures s[i].id in AsMap(s) && AsMap(s)[s[i].id] == s[i]
  {
    assert Has(s, s[i].id);
    var c := AsMap(s)[s[i].id];
    var j :| 0 <= j < |s| && s[j] == c;
    assert i == j;
  }

  lemma AsMapOf(s: seq<Conn>, x: Conn)
    requires Sorted(s) && x in s
    ensures x.id in AsMap(s) && AsMap(s)[x.id] == x
  {
    var i :| 0 <= i < |s| && s[i] == x;
    AsMapAt(s, i);
  }

  /** A sorted deque is determined by its map. */
  lemma AsMapIs(s: seq<Conn>, m: map<u16, Conn>)
    requires Sorted(s)
    requires forall x :: x in s ==> x.id in m && m[x.id] == x
    requires forall id :: id in m ==> m[id] in s && m[id].id == id
    ensures AsMap(s) == m
  {
    forall id | id in m ensures id in AsMap(s) && AsMap(s)[id] == m[id] {
      AsMapOf(s, m[id]);
    }
  }

  /** What the id allocator must answer for a table `m`: one above the largest id while that
      fits, then the least id that is free, and nothing exactly if all are taken. */
  ghost predicate NextId(m: map<u16, Conn>, r: Option<u16>) {
    && (r.None? <==> forall id: u16 :: id in m)
    && (r.Some? ==> r.value !in m)
    && (m == map[] ==> r == Some(1))
    && (m != map[] && ID_MAX !in m ==>
          r.Some? && r.value - 1 in m && forall id :: id in m ==> id < r.value)
    && (ID_MAX in m && r.Some? ==> forall id: u16 :: id < r.value ==> id in m)
  }

  class ConnMap {
    var conns: seq<Conn>

    ghost predicate Valid()
      reads this
    {
      Sorted(conns)
    }

    ghost function View(): map<u16, Conn>
      reads this
    {
      AsMap(conns)
    }

    constructor ()
      ensures Valid() && View() == map[]
    {
      conns := [];
    }

    /** The library's binary search by key. */
    method BinarySearch(id: u16) returns (found: bool, index: nat)
      requires Valid()
      ensures found <==> id in View()
      ensures index <= |conns|
      ensures found ==> index < |conns| && conns[index].id == id
      ensures !found ==> forall i :: 0 <= i < |conns| ==> (conns[i].id < id <==> i < index)
      ensures !found ==> forall i :: 0 <= i < |conns| ==> conns[i].id != id
    {
      var lo, hi := 0, |conns|;
      while lo < hi
        invariant 0 <= lo <= hi <= |conns|
        invariant forall i :: 0 <= i < lo ==> conns[i].id < id
        invariant forall i :: hi <= i < |conns| ==> conns[i].id > id
      {
        var mid := (lo + hi) / 2;
        if conns[mid].id == id {
          assert Has(conns, id);
          return true, mid;
        } else if conns[mid].id < id {
          lo := mid + 1;
        } else {
          hi := mid;
        }
      }
      found, index := false, lo;
    }

    method Insert(c: Conn)
      requires Valid()
      modifies this
      ensures Valid() && View() == old(View())[c.id := c]
    {
      var found, p := BinarySearch(c.id);
      ghost var before := conns;
      if found {
        conns := conns[p := c];
        Replaced(before, p, c);
      } else {
        conns := conns[..p] + [c] + conns[p..];
        InsertedAt(before, p, c);
      }
    }

    method Get(id: u16) returns (r: Option<Conn>)
      requires Valid()
      ensures r == if id in View() then Some(View()[id]) else None
    {
      var found, p := BinarySearch(id);
      if found {
        AsMapAt(conns, p);
      }
      r := if found then Some(conns[p]) else None;
    }

    /** The channel of connection `id` accepts one more payload. */
    method Push(id: u16, payload: seq<byte>)
      requires Valid() && id in View()
      modifies this
      ensures Valid()
      ensures View() == old(View())[id := old(View())[id].(inbox := old(View())[id].inbox + [payload])]
    {
      var found, p := BinarySearch(id);
      AsMapAt(conns, p);
      var c := conns[p].(inbox := conns[p].inbox + [payload]);
      Replaced(conns, p, c);
      conns := conns[p := c];
    }

    method Remove(id: u16) returns (r: Option<Conn>)
      requires Valid()
      modifies this
      ensures Valid() && View() == old(View()) - {id}
      ensures r == if id in old(View()) then Some(old(View())[id]) else None
    {
      var found, p := BinarySearch(id);
      if found {
        ghost var before := conns;
        AsMapAt(conns, p);
        r := Some(conns[p]);
        conns := conns[..p] + conns[p + 1..];
        RemovedAt(before, p);
      } else {
        r := None;
      }
    }

    method FindAvailableId() returns (r: Option<u16>)
      requires Valid()
      ensures NextId(View(), r)
    {
      var maxKey := if conns == [] then 0 else conns[|conns| - 1].id;
      if maxKey + 1 <= ID_MAX {
        AboveMax(conns, maxKey);
        return Some(maxKey + 1);
      }
      r := FindGap();
    }

    /** The search from the beginning, once the largest id is taken. */
    method FindGap() returns (r: Option<u16>)
      requires Valid() && conns != [] && conns[|conns| - 1].id == ID_MAX
      ensures NextId(View(), r)
    {
      var expecting := 0;
      var i := 0;
      while i < |conns|
        invariant i < |conns| && expecting == i <= ID_MAX
        invariant forall j :: 0 <= j < i ==> conns[j].id == j
      {
        if expecting != conns[i].id {
          GapAt(conns, i);
          return Some(expecting);
        }
        if expecting + 1 > ID_MAX {
          AllTaken(conns);
          return None;
        }
        assert conns[i].id != conns[|conns| - 1].id;
        expecting := expecting + 1;
        i := i + 1;
      }
      assert false; // the last id is the maximum, so the loop has returned
      r := None;
    }
  }

  // ---- what the deque operations do to the map -------------------------------------------

  lemma UpsertMakesMap(s: seq<Conn>, t: seq<Conn>, c: Conn)
    requires Sorted(s) && Sorted(t) && c in t
    requires forall x :: x in t ==> x == c || (x in s && x.id != c.id)
    requires forall x :: x in s && x.id != c.id ==> x in t
    ensures AsMap(t) == AsMap(s)[c.id := c]
  {
    forall x | x in t && x != c ensures x.id in AsMap(s) && AsMap(s)[x.id] == x {
      AsMapOf(s, x);
    }
    AsMapIs(t, AsMap(s)[c.id := c]);
  }

  lemma DeleteMakesMap(s: seq<Conn>, t: seq<Conn>, id: u16)
    requires Sorted(s) && Sorted(t)
    requires forall x :: x in t ==> x in s && x.id != id
    requires forall x :: x in s && x.id != id ==> x in t
    ensures AsMap(t) == AsMap(s) - {id}
  {
    forall x | x in t ensures x.id in AsMap(s) && AsMap(s)[x.id] == x {
      AsMapOf(s, x);
    }
    AsMapIs(t, AsMap(s) - {id});
  }

  lemma ReplacedSorted(s: seq<Conn>, p: nat, c: Conn)
    requires Sorted(s) && p < |s| && s[p].id == c.id
    ensures Sorted(s[p := c])
  {
  }

  lemma Replaced(s: seq<Conn>, p: nat, c: Conn)
    requires Sorted(s) && p < |s| && s[p].id == c.id
    ensures Sorted(s[p := c]) && AsMap(s[p := c]) == AsMap(s)[c.id := c]
  {
    var t := s[p := c];
    ReplacedSorted(s, p, c);
    assert t[p] == c;
    forall x | x in t ensures x == c || (x in s && x.id != c.id) {
      var k :| 0 <= k < |t| && t[k] == x;
    }
    forall x | x in s && x.id != c.id ensures x in t {
      var k :| 0 <= k < |s| && s[k] == x;
      assert t[k] == x;
    }
    UpsertMakesMap(s, t, c);
  }

  lemma InsertedSorted(s: seq<Conn>, p: nat, c: Conn)
    requires Sorted(s) && p <= |s|
    requires forall i :: 0 <= i < |s| ==> (s[i].id < c.id <==> i < p) && s[i].id != c.id
    ensures Sorted(s[..p] + [c] + s[p..])
  {
  }

  lemma InsertedHas(s: seq<Conn>, p: nat, c: Conn, x: Conn)
    requires p <= |s|
    ensures x in s[..p] + [c] + s[p..] <==> x == c || x in s
  {
    assert s == s[..p] + s[p..];
    assert x in s <==> x in s[..p] || x in s[p..];
  }

  lemma InsertedAt(s: seq<Conn>, p: nat, c: Conn)
    requires Sorted(s) && p <= |s|
    requires forall i :: 0 <= i < |s| ==> (s[i].id < c.id <==> i < p) && s[i].id != c.id
    ensures var t := s[..p] + [c] + s[p..];
      Sorted(t) && AsMap(t) == AsMap(s)[c.id := c]
  {
    var t := s[..p] + [c] + s[p..];
    InsertedSorted(s, p, c);
    InsertedHas(s, p, c, c);
    forall x | x in t ensures x == c || (x in s && x.id != c.id) {
      InsertedHas(s, p, c, x);
    }
    forall x | x in s && x.id != c.id ensures x in t {
      InsertedHas(s, p, c, x);
    }
    UpsertMakesMap(s, t, c);
  }

  lemma RemovedSorted(s: seq<Conn>, p: nat)
    requires Sorted(s) && p < |s|
    ensures Sorted(s[..p] + s[p + 1..])
  {
  }

  lemma RemovedIsGone(s: seq<Conn>, p: nat, k: nat)
    requires Sorted(s) && p < |s| && k < |s|
    ensures s[k] in s[..p] + s[p + 1..] <==> s[k].id != s[p].id
  {
    if k < p {
      assert s[k] in s[..p];
    } else if k > p {
      assert s[k] == s[p + 1..][k - (p + 1)];
    }
  }

  lemma RemovedAt(s: seq<Conn>, p: nat)
    requires Sorted(s) && p < |s|
    ensures var t := s[..p] + s[p + 1..];
      Sorted(t) && AsMap(t) == AsMap(s) - {s[p].id}
  {
    var t := s[..p] + s[p + 1..];
    RemovedSorted(s, p);
    forall x | x in t ensures x in s && x.id != s[p].id {
      assert x in s[..p] || x in s[p + 1..];
      var k :| 0 <= k < |s| && s[k] == x;
      RemovedIsGone(s, p, k);
    }
    forall x | x in s && x.id != s[p].id ensures x in t {
      var k :| 0 <= k < |s| && s[k] == x;
      RemovedIsGone(s, p, k);
    }
    DeleteMakesMap(s, t, s[p].id);
  }

  // ---- the id allocator ------------------------------------------------------------------

  /** Every id in the map is that of a connection in the deque, and none exceeds the last. */
  lemma LastIsMax(s: seq<Conn>, id: u16)
    requires Sorted(s) && s != [] && id in AsMap(s)
    ensures id <= s[|s| - 1].id
  {
    var i :| 0 <= i < |s| && s[i].id == id;
  }

  lemma AboveMax(s: seq<Conn>, top: u16)
    requires Sorted(s) && top == (if s == [] then 0 else s[|s| - 1].id) && top < ID_MAX
    ensures NextId(AsMap(s), Some(top + 1))
  {
    var m := AsMap(s);
    if s == [] {
      assert m == map[] && !Has(s, 0);
    } else {
      AsMapAt(s, |s| - 1);
      forall id | id in m ensures id <= top {
        LastIsMax(s, id);
      }
      NextAbove(m, top);
    }
  }

  lemma NextAbove(m: map<u16, Conn>, top: u16)
    requires top in m && top < ID_MAX && forall id :: id in m ==> id <= top
    ensures NextId(m, Some(top + 1))
  {
    assert top + 1 !in m && ID_MAX !in m;
  }

  lemma GapAt(s: seq<Conn>, i: nat)
    requires Sorted(s) && i < |s| && s[|s| - 1].id == ID_MAX
    requires forall j :: 0 <= j < i ==> s[j].id == j
    requires s[i].id != i && i <= ID_MAX
    ensures NextId(AsMap(s), Some(i))
  {
    assert s[i].id > i by {
      if i > 0 {
        assert s[i - 1].id < s[i].id;
      }
    }
    assert !Has(s, i);
    AsMapAt(s, |s| - 1);
    forall id: u16 | id < i ensures id in AsMap(s) {
      assert s[id].id == id;
    }
    assert i !in AsMap(s);
  }

  lemma AllTaken(s: seq<Conn>)
    requires Sorted(s) && |s| > ID_MAX && forall j :: 0 <= j <= ID_MAX ==> s[j].id == j
    ensures NextId(AsMap(s), None)
  {
    forall id: u16 ensures id in AsMap(s) {
      assert s[id].id == id;
    }
    assert 0 in AsMap(s);
  }

  // ---- the steps of the server -----------------------------------------------------------

  /** How the channel of a connection took a payload; without a connection it is not asked. */
  datatype Sending = NoConnection | Taken | Full | Disconnected

  /** One change of the table under its lock: a client connected and got an id, or none was
      left; a payload was offered to a connection; a connection was removed, because its
      channel was found disconnected or it has finished; or a message was ignored. */
  datatype Event =
    | Connected(origin: Origin, got: Option<u16>)
    | Offered(to: u16, payload: seq<byte>, sending: Sending)
    | Removed(gone: u16)
    | Ignored

  ghost predicate TableStep(m: map<u16, Conn>, ev: Event, m': map<u16, Conn>) {
    match ev
    case Connected(origin, got) =>
      NextId(m, got) && m' == if got.None? then m else m[got.value := Conn(got.value, origin, [])]
    case Offered(to, payload, sending) =>
      && (sending == NoConnection <==> to !in m)
      && m' == if sending != Taken then m else m[to := m[to].(inbox := m[to].inbox + [payload])]
    case Removed(gone) => m' == m - {gone}
    case Ignored => m' == m
  }

  class Server {
    const connections: ConnMap

    constructor ()
      ensures connections.Valid() && connections.View() == map[] && fresh(connections)
    {
      connections := new ConnMap();
    }

    /** One turn of the message loop of serve; `channel` is what the connection's channel
        would answer. The removal after a disconnect is a step of its own. */
    method Handle(msg: Message, from: SocketAddr, channel: Sending) returns (ghost ev: Event)
      requires connections.Valid() && channel != NoConnection
      modifies connections
      ensures connections.Valid()
      ensures ev.Offered? && ev.sending == Disconnected ==>
                connections.View() == old(connections.View()) - {ev.to} && ev.to in old(connections.View())
      ensures !(ev.Offered? && ev.sending == Disconnected) ==>
                TableStep(old(connections.View()), ev, connections.View())
      ensures match msg
              case Connect(uuid, data, None, dst) =>
                ev.Connected? && ev.origin == Origin(uuid, data, from, dst)
              case Data(Some(id), _, payload, _) =>
                ev == Offered(id, payload, if id in old(connections.View()) then channel else NoConnection)
              case _ => ev == Ignored
    {
      ev := Ignored;
      match msg {
        case Connect(uuid, data, None, dst) =>
          var id := connections.FindAvailableId();
          ev := Connected(Origin(uuid, data, from, dst), id);
          if id.Some? {
            connections.Insert(Conn(id.value, Origin(uuid, data, from, dst), []));
          }
        case Data(Some(id), _, payload, _) =>
          var conn := connections.Get(id);
          ev := Offered(id, payload, if conn.Some? then channel else NoConnection);
          if conn.Some? {
            if channel == Taken {
              connections.Push(id, payload);
            } else if channel == Disconnected {
              var _ := connections.Remove(id);
            }
          }
        case _ =>
      }
    }

    /** A connection has finished and its entry is removed, by number only. */
    method Finished(id: u16)
      requires connections.Valid()
      modifies connections
      ensures connections.Valid()
      ensures TableStep(old(connections.View()), Removed(id), connections.View())
    {
      var _ := connections.Remove(id);
    }
  }

  // ---- whole runs, every interleaving of the steps -----------------------------------------

  ghost predicate TableRun(ms: seq<map<u16, Conn>>, evs: seq<Event>)
    decreases evs
  {
    && |ms| == |evs| + 1
    && if evs == [] then ms[0] == map[]
       else
         var n := |evs| - 1;
         TableRun(ms[..n + 1], evs[..n]) && TableStep(ms[n], evs[n], ms[n + 1])
  }

  /** What the history says about connection `id`: who it is since the last time the id was
      given out, and the payloads taken since, in order. */
  function Live(evs: seq<Event>, id: u16): Option<Conn> {
    if evs == [] then None
    else
      var before := Live(evs[..|evs| - 1], id);
      match evs[|evs| - 1]
      case Connected(origin, got) => if got == Some(id) then Some(Conn(id, origin, [])) else before
      case Offered(to, payload, sending) =>
        if to == id && sending == Taken && before.Some?
        then Some(before.value.(inbox := before.value.inbox + [payload])) else before
      case Removed(gone) => if gone == id then None else before
      case Ignored => before
  }

  /** Over every interleaving of connects, payloads and removals, the table holds exactly the
      connections the history says are live, each with exactly its own payloads. */
  lemma {:induction false} TableIsHistory(ms: seq<map<u16, Conn>>, evs: seq<Event>, id: u16)
    requires TableRun(ms, evs)
    ensures Live(evs, id) == if id in ms[|evs|] then Some(ms[|evs|][id]) else None
    decreases evs
  {
    if evs != [] {
      var n := |evs| - 1;
      TableIsHistory(ms[..n + 1], evs[..n], id);
    }
  }

  predicate Mentions(ev: Event, id: u16) {
    match ev
    case Connected(_, got) => got == Some(id)
    case Offered(to, _, _) => to == id
    case Removed(gone) => gone == id
    case Ignored => false
  }

  function About(evs: seq<Event>, id: u16): seq<Event> {
    if evs == [] then []
    else About(evs[..|evs| - 1], id) + (if Mentions(evs[|evs| - 1], id) then [evs[|evs| - 1]] else [])
  }

  /** A connection depends on nothing but the events that carry its id: no payload for another
      id reaches it and no removal of another id touches it. */
  lemma {:induction false} ConnectionsAreIndependent(evs: seq<Event>, id: u16)
    ensures Live(evs, id) == Live(About(evs, id), id)
  {
    if evs != [] {
      var n := |evs| - 1;
      ConnectionsAreIndependent(evs[..n], id);
      var before := About(evs[..n], id);
      if Mentions(evs[n], id) {
        assert (before + [evs[n]])[..|before|] == before;
      } else {
        assert before + [] == before;
      }
    }
  }

  /** No connect ever takes over a live connection, and one is refused only when all 65536
      ids are live. */
  lemma ConnectNeverReplaces(ms: seq<map<u16, Conn>>, before: seq<Event>, origin: Origin, got: Option<u16>)
    requires TableRun(ms, before + [Connected(origin, got)])
    ensures got.Some? ==> Live(before, got.value).None?
    ensures got.None? <==> forall id: u16 :: Live(before, id).Some?
  {
    LiveAreInTable(ms, before, Connected(origin, got));
  }

  lemma LiveAreInTable(ms: seq<map<u16, Conn>>, before: seq<Event>, ev: Event)
    requires TableRun(ms, before + [ev])
    ensures TableStep(ms[|before|], ev, ms[|before| + 1])
    ensures forall id: u16 :: Live(before, id).Some? <==> id in ms[|before|]
  {
    var n := |before|;
    assert (before + [ev])[..n] == before;
    forall id: u16 ensures Live(before, id).Some? <==> id in ms[n] {
      TableIsHistory(ms[..n + 1], before, id);
    }
  }

  /** Which id a connect gets: 1 from an empty table, else the one above all live ids while
      65535 is not live, else the least that is not live. */
  lemma ConnectGets(ms: seq<map<u16, Conn>>, before: seq<Event>, origin: Origin, got: Option<u16>)
    requires TableRun(ms, before + [Connected(origin, got)])
    ensures (forall id: u16 :: Live(before, id).None?) ==> got == Some(1)
    ensures (exists id: u16 :: Live(before, id).Some?) && Live(before, 65535).None? ==>
              && got.Some? && got.value > 0 && Live(before, got.value - 1).Some?
              && forall id: u16 :: id >= got.value ==> Live(before, id).None?
    ensures Live(before, 65535).Some? && got.Some? ==>
              forall id: u16 :: id < got.value ==> Live(before, id).Some?
  {
    LiveAreInTable(ms, before, Connected(origin, got));
    var m := ms[|before|];
    if forall id: u16 :: Live(before, id).None? {
      assert m == map[];
    } else {
      var id: u16 :| Live(before, id).Some?;
      assert id in m && m != map[];
    }
  }

  /** The payloads for `id` that were taken, in the order of the events. */
  function TakenFor(evs: seq<Event>, id: u16): seq<seq<byte>> {
    if evs == [] then [] else PayloadFor(evs[0], id) + TakenFor(evs[1..], id)
  }

  function PayloadFor(ev: Event, id: u16): seq<seq<byte>> {
    if ev.Offered? && ev.to == id && ev.sending == Taken then [ev.payload] else []
  }

  lemma {:induction false} TakenForSnoc(evs: seq<Event>, ev: Event, id: u16)
    ensures TakenFor(evs + [ev], id) == TakenFor(evs, id) + PayloadFor(ev, id)
  {
    if evs == [] {
      assert evs + [ev] == [ev] && [ev][1..] == [];
    } else {
      assert (evs + [ev])[0] == evs[0] && (evs + [ev])[1..] == evs[1..] + [ev];
      TakenForSnoc(evs[1..], ev, id);
    }
  }

  ghost predicate Untouched(evs: seq<Event>, id: u16) {
    forall ev :: ev in evs ==>
      !(ev.Connected? && ev.got == Some(id)) && !(ev.Removed? && ev.gone == id)
  }

  /** One more event that neither gives out the id nor removes it. */
  lemma LiveSnoc(evs: seq<Event>, last: Event, id: u16)
    requires Untouched([last], id)
    ensures Live(evs, id).None? ==> Live(evs + [last], id).None?
    ensures Live(evs, id).Some? ==>
              var c := Live(evs, id).value;
              Live(evs + [last], id) == Some(c.(inbox := c.inbox + PayloadFor(last, id)))
  {
    assert last in [last] && (evs + [last])[..|evs|] == evs;
    if Live(evs, id).Some? {
      var c := Live(evs, id).value;
      assert c.inbox + [] == c.inbox;
    }
  }

  /** From its connect on, until its id is removed or given out again, a connection is live
      with exactly the payloads taken for it, oldest first; after a removal it is not live. */
  lemma {:induction false} LiveSince(before: seq<Event>, ev: Event, since: seq<Event>, id: u16)
    requires Untouched(since, id)
    ensures ev.Connected? && ev.got == Some(id) ==>
              Live(before + [ev] + since, id) == Some(Conn(id, ev.origin, TakenFor(since, id)))
    ensures ev == Removed(id) ==> Live(before + [ev] + since, id) == None
    decreases since
  {
    var all := before + [ev] + since;
    if since == [] {
      assert all == before + [ev] && all[..|all| - 1] == before;
    } else {
      var n := |since| - 1;
      var last := since[n];
      assert last in since;
      LiveSince(before, ev, since[..n], id);
      assert since == since[..n] + [last] && all == before + [ev] + since[..n] + [last];
      TakenForSnoc(since[..n], last, id);
      LiveSnoc(before + [ev] + since[..n], last, id);
    }
  }
}
