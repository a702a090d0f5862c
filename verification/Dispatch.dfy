/** The download client manager (manager.rs): which clients a grab is offered to, and in which
    order. */
module Dispatch {
  import opened Wrappers

  datatype Protocol = Torrent | Usenet

  /** A registered client; `name` stands for the client object. */
  datatype Client = Client(id: int, name: string, protocol: Protocol, enabled: bool, priority: int)

  // ----- Candidates -----

  /** A candidate is a reference to a registered client: its place in the registration order. */
  function Eligible(clients: seq<Client>, protocol: Protocol): (ix: seq<nat>)
    ensures InRange(clients, ix)
  {
    if clients == [] then []
    else
      var n := |clients| - 1;
      Eligible(clients[..n], protocol)
      + if clients[n].enabled && clients[n].protocol == protocol then [n] else []
  }

  predicate InRange(clients: seq<Client>, ix: seq<nat>) {
    forall j :: 0 <= j < |ix| ==> ix[j] < |clients|
  }

  function Insert(clients: seq<Client>, x: nat, ix: seq<nat>): (r: seq<nat>)
    requires x < |clients| && InRange(clients, ix)
    ensures InRange(clients, r)
  {
    if ix == [] || clients[x].priority <= clients[ix[0]].priority then [x] + ix
    else [ix[0]] + Insert(clients, x, ix[1..])
  }

  /** The stable sort by priority. */
  function SortByPriority(clients: seq<Client>, ix: seq<nat>): (r: seq<nat>)
    requires InRange(clients, ix)
    ensures InRange(clients, r)
  {
    if ix == [] then [] else Insert(clients, ix[0], SortByPriority(clients, ix[1..]))
  }

  function Order(clients: seq<Client>, protocol: Protocol): (r: seq<nat>)
    ensures InRange(clients, r)
  {
    SortByPriority(clients, Eligible(clients, protocol))
  }

  /** `a` comes before `b`: by priority, and by registration among equals. */
  predicate Before(clients: seq<Client>, a: nat, b: nat)
    requires a < |clients| && b < |clients|
  {
    clients[a].priority < clients[b].priority || (clients[a].priority == clients[b].priority && a < b)
  }

  predicate Ordered(clients: seq<Client>, ix: seq<nat>) {
    && InRange(clients, ix)
    && forall i, j :: 0 <= i < j < |ix| ==> Before(clients, ix[i], ix[j])
  }

  predicate IsCandidate(clients: seq<Client>, protocol: Protocol, k: nat) {
    k < |clients| && clients[k].enabled && clients[k].protocol == protocol
  }

  lemma {:induction false} EligibleExact(clients: seq<Client>, protocol: Protocol)
    ensures var ix := Eligible(clients, protocol);
      Increasing(ix) && forall k :: k in ix <==> IsCandidate(clients, protocol, k)
  {
    if clients != [] {
      var n := |clients| - 1;
      EligibleExact(clients[..n], protocol);
      forall k ensures k in Eligible(clients, protocol) <==> IsCandidate(clients, protocol, k) {
        assert k in Eligible(clients[..n], protocol) <==> IsCandidate(clients[..n], protocol, k);
      }
    }
  }

  predicate Increasing(ix: seq<nat>) {
    forall i, j :: 0 <= i < j < |ix| ==> ix[i] < ix[j]
  }

  lemma {:induction false} InsertOrders(clients: seq<Client>, x: nat, ix: seq<nat>)
    requires x < |clients| && Ordered(clients, ix) && forall j :: 0 <= j < |ix| ==> x < ix[j]
    ensures var r := Insert(clients, x, ix);
      Ordered(clients, r) && forall k :: k in r <==> k == x || k in ix
  {
    if ix == [] || clients[x].priority <= clients[ix[0]].priority {
      assert forall k :: k in [x] + ix <==> k == x || k in ix;
      forall j | 0 <= j < |ix| ensures Before(clients, x, ix[j]) {
        assert j > 0 ==> Before(clients, ix[0], ix[j]);
      }
    } else {
      InsertOrders(clients, x, ix[1..]);
      var rest := Insert(clients, x, ix[1..]);
      forall k | k in rest ensures Before(clients, ix[0], k) {
        if k != x {
          var j :| 1 <= j < |ix| && ix[j] == k;
        }
      }
      assert forall k :: k in ix <==> k == ix[0] || k in ix[1..];
    }
  }

  lemma {:induction false} SortOrders(clients: seq<Client>, ix: seq<nat>)
    requires InRange(clients, ix) && Increasing(ix)
    ensures var r := SortByPriority(clients, ix); Ordered(clients, r) && forall k :: k in r <==> k in ix
  {
    if ix != [] {
      SortOrders(clients, ix[1..]);
      var rest := SortByPriority(clients, ix[1..]);
      forall i | 0 <= i < |rest| ensures ix[0] < rest[i] {
        assert rest[i] in ix[1..];
        var j :| 1 <= j < |ix| && ix[j] == rest[i];
      }
      InsertOrders(clients, ix[0], SortByPriority(clients, ix[1..]));
      assert forall k :: k in ix <==> k == ix[0] || k in ix[1..];
    }
  }

  /** The candidates are exactly the enabled clients of the protocol, each once, by priority and then
      by registration. */
  lemma OrderExact(clients: seq<Client>, protocol: Protocol)
    ensures Ordered(clients, Order(clients, protocol))
    ensures forall k :: k in Order(clients, protocol) <==> IsCandidate(clients, protocol, k)
  {
    EligibleExact(clients, protocol);
    SortOrders(clients, Eligible(clients, protocol));
  }

  /** There is only one such order. */
  lemma {:induction false} OrderUnique(clients: seq<Client>, a: seq<nat>, b: seq<nat>)
    requires Ordered(clients, a) && Ordered(clients, b) && forall k :: k in a <==> k in b
    ensures a == b
  {
    FirstIsMember(a);
    FirstIsMember(b);
    if a != [] && b != [] {
      SameFirst(clients, a, b);
      forall k ensures k in a[1..] <==> k in b[1..] {
        SetOfRest(clients, a, k);
        SetOfRest(clients, b, k);
      }
      OrderUnique(clients, a[1..], b[1..]);
      assert a == [a[0]] + a[1..] && b == [b[0]] + b[1..];
    }
  }

  lemma FirstIsMember(ix: seq<nat>)
    ensures ix != [] ==> ix[0] in ix
  {}

  lemma SameFirst(clients: seq<Client>, a: seq<nat>, b: seq<nat>)
    requires Ordered(clients, a) && Ordered(clients, b) && a != [] && b != [] && forall k :: k in a <==> k in b
    ensures a[0] == b[0]
  {
    assert a[0] in b && b[0] in a;
    var i :| 0 <= i < |a| && a[i] == b[0];
    var j :| 0 <= j < |b| && b[j] == a[0];
  }

  lemma SetOfRest(clients: seq<Client>, a: seq<nat>, k: nat)
    requires Ordered(clients, a) && a != []
    ensures k in a[1..] <==> k in a && k != a[0]
  {
    if k in a[1..] {
      var i :| 1 <= i < |a| && a[i] == k;
    }
  }

  // ----- The manager -----

  /** The registered clients without those of the given id. */
  function Retain(clients: seq<Client>, id: int): seq<Client> {
    if clients == [] then []
    else
      var n := |clients| - 1;
      Retain(clients[..n], id) + if clients[n].id != id then [clients[n]] else []
  }

  function FirstWithId(clients: seq<Client>, id: int): (r: Option<nat>)
    ensures r.Some? ==> r.value < |clients| && clients[r.value].id == id
                        && forall k :: 0 <= k < r.value ==> clients[k].id != id
    ensures r.None? ==> forall k :: 0 <= k < |clients| ==> clients[k].id != id
  {
    if clients == [] then None
    else if clients[0].id == id then Some(0)
    else
      match FirstWithId(clients[1..], id)
      case None => None
      case Some(k) => Some(k + 1)
  }

  /** What the k-th attempt of a grab is answered. */
  type Answers = nat -> Option<string>

  class Manager {
    var clients: seq<Client>

    constructor ()
      ensures clients == []
    {
      clients := [];
    }

    method AddClient(id: int, name: string, protocol: Protocol, priority: int)
      modifies this
      ensures clients == old(clients) + [Client(id, name, protocol, true, priority)]
    {
      clients := clients + [Client(id, name, protocol, true, priority)];
    }

    method RemoveClient(id: int) returns (removed: bool)
      modifies this
      ensures clients == Retain(old(clients), id)
      ensures removed <==> exists c <- old(clients) :: c.id == id
    {
      RetainExact(clients, id);
      var before := |clients|;
      clients := Retain(clients, id);
      removed := |clients| < before;
    }

    method SetEnabled(id: int, enabled: bool)
      modifies this
      ensures var k := FirstWithId(old(clients), id);
        clients == if k.None? then old(clients) else old(clients)[k.value := old(clients)[k.value].(enabled := enabled)]
    {
      var k := FirstWithId(clients, id);
      if k.Some? {
        clients := clients[k.value := clients[k.value].(enabled := enabled)];
      }
    }

    /** `grab`: the candidates are tried in order, each once, up to the first success; the grab fails
        only when every candidate has failed. */
    method Grab(protocol: Protocol, answers: Answers) returns (r: Option<(int, string)>, tried: seq<nat>)
      ensures var order := Order(clients, protocol);
        && tried <= order
        && (forall k :: 0 <= k < |tried| - 1 ==> answers(k).None?)
        && match r
           case None => tried == order && forall k :: 0 <= k < |order| ==> answers(k).None?
           case Some((id, download)) =>
             tried != [] && answers(|tried| - 1) == Some(download) && id == clients[order[|tried| - 1]].id
    {
      var candidates := Order(clients, protocol);
      tried := [];
      for i := 0 to |candidates|
        invariant tried == candidates[..i]
        invariant forall k :: 0 <= k < i ==> answers(k).None?
      {
        tried := tried + [candidates[i]];
        match answers(i) {
          case Some(download) => return Some((clients[candidates[i]].id, download)), tried;
          case None =>
        }
      }
      r := None;
    }
  }

  lemma {:induction false} RetainExact(clients: seq<Client>, id: int)
    ensures |Retain(clients, id)| <= |clients|
    ensures |Retain(clients, id)| < |clients| <==> exists c <- clients :: c.id == id
    ensures forall c :: c in Retain(clients, id) <==> c in clients && c.id != id
  {
    if clients != [] {
      var n := |clients| - 1;
      RetainExact(clients[..n], id);
      assert clients == clients[..n] + [clients[n]];
      assert forall c :: c in clients <==> c in clients[..n] || c == clients[n];
    }
  }

  // ----- How the operations change the order -----

  function Except(ix: seq<nat>, x: nat): seq<nat> {
    if ix == [] then [] else (if ix[0] == x then [] else [ix[0]]) + Except(ix[1..], x)
  }

  lemma {:induction false} ExceptOrdered(clients: seq<Client>, ix: seq<nat>, x: nat)
    requires Ordered(clients, ix)
    ensures Ordered(clients, Except(ix, x)) && forall k :: k in Except(ix, x) <==> k in ix && k != x
  {
    if ix != [] {
      ExceptOrdered(clients, ix[1..], x);
      forall k | k in Except(ix[1..], x) ensures Before(clients, ix[0], k) {
        var j :| 1 <= j < |ix| && ix[j] == k;
      }
      assert forall k :: k in ix <==> k == ix[0] || k in ix[1..];
    }
  }

  lemma SameOrder(a: seq<Client>, b: seq<Client>, ix: seq<nat>)
    requires Ordered(a, ix) && InRange(b, ix) && forall k <- ix :: a[k].priority == b[k].priority
    ensures Ordered(b, ix)
  {
    forall i, j | 0 <= i < j < |ix| ensures Before(b, ix[i], ix[j]) {
      assert Before(a, ix[i], ix[j]) && ix[i] in ix && ix[j] in ix;
    }
  }

  /** A new client comes in without changing the order of the others. */
  lemma AddKeepsOrder(clients: seq<Client>, c: Client, protocol: Protocol)
    ensures Except(Order(clients + [c], protocol), |clients|) == Order(clients, protocol)
  {
    var more := clients + [c];
    OrderExact(clients, protocol);
    OrderExact(more, protocol);
    hide Order;
    var rest := Except(Order(more, protocol), |clients|);
    ExceptOrdered(more, Order(more, protocol), |clients|);
    forall k ensures k in rest <==> k in Order(clients, protocol) {
      assert IsCandidate(more, protocol, k) && k != |clients| <==> IsCandidate(clients, protocol, k);
    }
    SameOrder(clients, more, Order(clients, protocol));
    OrderUnique(more, rest, Order(clients, protocol));
  }

  /** Disabling a client takes it, and nothing else, out of the order. */
  lemma DisableTakesOneOut(clients: seq<Client>, x: nat, protocol: Protocol)
    requires x < |clients|
    ensures Order(clients[x := clients[x].(enabled := false)], protocol) == Except(Order(clients, protocol), x)
  {
    var fewer := clients[x := clients[x].(enabled := false)];
    OrderExact(clients, protocol);
    OrderExact(fewer, protocol);
    hide Order;
    var rest := Except(Order(clients, protocol), x);
    ExceptOrdered(clients, Order(clients, protocol), x);
    forall k ensures k in rest <==> k in Order(fewer, protocol) {
      assert IsCandidate(clients, protocol, k) && k != x <==> IsCandidate(fewer, protocol, k);
    }
    SameOrder(clients, fewer, rest);
    OrderUnique(fewer, rest, Order(fewer, protocol));
  }

  /** Where client number `k` stands after the clients of the id have been removed. */
  function PlaceAfter(clients: seq<Client>, id: int, k: nat): nat
    requires k <= |clients|
  {
    |Retain(clients[..k], id)|
  }

  lemma {:induction false} RetainConcat(a: seq<Client>, b: seq<Client>, id: int)
    ensures Retain(a + b, id) == Retain(a, id) + Retain(b, id)
    decreases |b|
  {
    if b == [] {
      assert a + b == a;
    } else {
      assert (a + b)[..|a + b| - 1] == a + b[..|b| - 1];
      RetainConcat(a, b[..|b| - 1], id);
    }
  }

  /** A client that stays is found at its new place, after those that stayed before it. */
  lemma StaysAt(clients: seq<Client>, id: int, k: nat)
    requires k < |clients| && clients[k].id != id
    ensures PlaceAfter(clients, id, k) < |Retain(clients, id)|
    ensures Retain(clients, id)[PlaceAfter(clients, id, k)] == clients[k]
    ensures forall j :: 0 <= j < k && clients[j].id != id ==> PlaceAfter(clients, id, j) < PlaceAfter(clients, id, k)
  {
    RetainSplit(clients, id, k);
    forall j | 0 <= j < k && clients[j].id != id ensures PlaceAfter(clients, id, j) < PlaceAfter(clients, id, k) {
      RetainSplit(clients[..k], id, j);
      assert clients[..k][..j] == clients[..j];
    }
  }

  lemma RetainSplit(clients: seq<Client>, id: int, k: nat)
    requires k < |clients|
    ensures Retain(clients, id)
      == Retain(clients[..k], id) + (if clients[k].id != id then [clients[k]] else []) + Retain(clients[k + 1..], id)
  {
    assert clients == clients[..k] + [clients[k]] + clients[k + 1..];
    RetainConcat(clients[..k] + [clients[k]], clients[k + 1..], id);
    RetainConcat(clients[..k], [clients[k]], id);
    assert Retain([clients[k]], id) == if clients[k].id != id then [clients[k]] else []
        by { assert [clients[k]][..0] == []; }
  }

  /** Every place after the removal is that of a client that stayed. */
  lemma {:induction false} CameFrom(clients: seq<Client>, id: int, n: nat) returns (k: nat)
    requires n < |Retain(clients, id)|
    ensures k < |clients| && clients[k].id != id && PlaceAfter(clients, id, k) == n
    decreases |clients|
  {
    var last := |clients| - 1;
    if n < |Retain(clients[..last], id)| {
      k := CameFrom(clients[..last], id, n);
      assert clients[..last][..k] == clients[..k];
    } else {
      k := last;
    }
  }

  /** The old order without the removed clients, with their new places. */
  function OrderLeft(clients: seq<Client>, id: int, ix: seq<nat>): seq<nat>
    requires InRange(clients, ix)
  {
    if ix == [] then []
    else (if clients[ix[0]].id != id then [PlaceAfter(clients, id, ix[0])] else []) + OrderLeft(clients, id, ix[1..])
  }

  lemma {:induction false} OrderLeftExact(clients: seq<Client>, id: int, ix: seq<nat>)
    requires Ordered(clients, ix)
    ensures Ordered(Retain(clients, id), OrderLeft(clients, id, ix))
    ensures forall n :: n in OrderLeft(clients, id, ix) <==>
      exists k :: k in ix && k < |clients| && clients[k].id != id && PlaceAfter(clients, id, k) == n
    decreases |ix|
  {
    if ix != [] {
      var x, more := ix[0], ix[1..];
      OrderLeftExact(clients, id, more);
      assert forall k :: k in ix <==> k == x || k in more;
      if clients[x].id != id {
        StaysAt(clients, id, x);
        var rest, left := OrderLeft(clients, id, more), Retain(clients, id);
        forall i | 0 <= i < |rest| ensures Before(left, PlaceAfter(clients, id, x), rest[i]) {
          assert rest[i] in rest;
          var k :| k in more && k < |clients| && clients[k].id != id && PlaceAfter(clients, id, k) == rest[i];
          var j :| 1 <= j < |ix| && ix[j] == k;
          StaysAt(clients, id, k);
        }
      }
    }
  }

  /** Removing an id takes its clients out of the order and leaves the others as they were. */
  lemma RemoveTakesItsOwnOut(clients: seq<Client>, id: int, protocol: Protocol)
    ensures Order(Retain(clients, id), protocol) == OrderLeft(clients, id, Order(clients, protocol))
  {
    var left, rest := Retain(clients, id), OrderLeft(clients, id, Order(clients, protocol));
    OrderExact(clients, protocol);
    OrderExact(left, protocol);
    OrderLeftExact(clients, id, Order(clients, protocol));
    hide Order, Retain, OrderLeft;
    forall n ensures n in rest <==> n in Order(left, protocol) {
      if n in rest {
        var k :| k in Order(clients, protocol) && k < |clients| && clients[k].id != id
            && PlaceAfter(clients, id, k) == n;
        StaysAt(clients, id, k);
      }
      if n in Order(left, protocol) {
        var k := CameFrom(clients, id, n);
        StaysAt(clients, id, k);
        assert IsCandidate(clients, protocol, k);
      }
    }
    OrderUnique(left, rest, Order(left, protocol));
  }
}
