/** Cards in the slots of a router, and the network bindings on their ports. */
module CiscoCard {

  const MAX_WIC := 8
  const MAX_SUBSLOTS := 16
  const MAX_SLOTS := 16

  datatype CardType = Undef | PortAdapter | NetworkModule | Wic

  /** A card driver: its type name, how many WICs it carries, and whether it answers for sub-slots. */
  datatype Driver = Driver(devType: string, wicSlots: nat, hasSubInfo: bool)

  /** What a driver answers for a sub-slot. */
  datatype SubInfo = NoSubInfo | SubInfo(drivers: seq<Driver>, kind: CardType)

  datatype Bay = MainBay | SubBay(i: nat)

  /** Which bay of a slot a port belongs to, and its number on the card there. */
  datatype PortInfo = NoPort | PortInfo(bay: Bay, port: nat)

  /** A command from a hypervisor connection; `answer` is what the driver of the slot's card says about
      sub-slots, and `others` the references that other components hold on the NIO. */
  datatype Command =
    | AddCard(devType: string, slotId: nat, portId: nat, answer: SubInfo)
    | RemoveCard(slotId: nat, portId: nat)
    | Bind(slotId: nat, portId: nat, nio: string)
    | Unbind(slotId: nat, portId: nat)
    | CreateNio(nio: string)
    | DropNio(nio: string, others: nat)

  function FindDriver(drivers: seq<Driver>, devType: string): (r: int)
    ensures -1 <= r < |drivers|
    ensures r == -1 <==> forall i :: 0 <= i < |drivers| ==> drivers[i].devType != devType
    ensures r >= 0 ==> drivers[r].devType == devType && forall i :: 0 <= i < r ==> drivers[i].devType != devType
  {
    if drivers == [] then -1
    else if drivers[0].devType == devType then 0
    else
      var k := FindDriver(drivers[1..], devType);
      assert forall i :: 0 < i < |drivers| ==> drivers[i] == drivers[1..][i - 1];
      if k == -1 then -1 else k + 1
  }

  /** The live bindings that name an NIO. */
  ghost function Naming(live: set<Binding>, nio: string): set<Binding> {
    set b | b in live && b.nio == nio
  }

  lemma NamingAdd(live: set<Binding>, b: Binding, nio: string)
    requires b !in live
    ensures |Naming(live + {b}, nio)| == |Naming(live, nio)| + if b.nio == nio then 1 else 0
  {
    if b.nio == nio {
      assert Naming(live + {b}, nio) == Naming(live, nio) + {b};
    } else {
      assert Naming(live + {b}, nio) == Naming(live, nio);
    }
  }

  lemma NamingRemove(live: set<Binding>, b: Binding, nio: string)
    requires b in live
    ensures |Naming(live, nio)| == |Naming(live - {b}, nio)| + if b.nio == nio then 1 else 0
  {
    NamingAdd(live - {b}, b, nio);
    assert live - {b} + {b} == live;
  }

  /** The references held on an NIO are as many as the bindings that name it. */
  ghost predicate RefsOk(refs: map<string, nat>, live: set<Binding>) {
    && (forall b :: b in live ==> b.nio in refs)
    && (forall n :: n in refs ==> refs[n] == |Naming(live, n)|)
  }

  lemma RefsAdd(refs: map<string, nat>, live: set<Binding>, b: Binding)
    requires RefsOk(refs, live) && b !in live && b.nio in refs
    ensures RefsOk(refs[b.nio := refs[b.nio] + 1], live + {b})
  {
    forall n | n in refs
      ensures |Naming(live + {b}, n)| == refs[n] + if b.nio == n then 1 else 0
    {
      NamingAdd(live, b, n);
    }
  }

  lemma RefsRemove(refs: map<string, nat>, live: set<Binding>, b: Binding)
    requires RefsOk(refs, live) && b in live
    ensures b.nio in refs && refs[b.nio] > 0 && RefsOk(refs[b.nio := refs[b.nio] - 1], live - {b})
  {
    NamingRemove(live, b, b.nio);
    forall n | n in refs
      ensures |Naming(live - {b}, n)| == refs[n] - if b.nio == n then 1 else 0
    {
      NamingRemove(live, b, n);
    }
  }

  predicate Listed(lists: map<Card, seq<Binding>>, older c: Card, older b: Binding) {
    c in lists && b in lists[c]
  }

  /** Each live card has a list of bindings that it owns, these are the live ones, and only slots that can be
      configured have any. */
  ghost predicate TableOk(cards: set<Card>, lists: map<Card, seq<Binding>>, live: set<Binding>, nrSlots: nat) {
    && lists.Keys == cards
    && (forall c, b :: Listed(lists, c, b) ==> b in live && b.owner == c && c.slotId < nrSlots)
    && (forall b :: b in live ==> Listed(lists, b.owner, b))
  }

  lemma ListLive(cards: set<Card>, lists: map<Card, seq<Binding>>, live: set<Binding>, nrSlots: nat, c: Card)
    requires TableOk(cards, lists, live, nrSlots) && c in lists
    ensures forall b :: b in lists[c] ==> b in live && b.owner == c
  {
    assert forall b :: b in lists[c] ==> Listed(lists, c, b);
  }

  lemma TableAdd(cards: set<Card>, lists: map<Card, seq<Binding>>, live: set<Binding>, nrSlots: nat, c: Card, b: Binding)
    requires TableOk(cards, lists, live, nrSlots) && c in cards && b !in live && b.owner == c && c.slotId < nrSlots
    ensures c in lists && b !in lists[c] && TableOk(cards, lists[c := [b] + lists[c]], live + {b}, nrSlots)
  {
    assert !Listed(lists, c, b);
    var lists' := lists[c := [b] + lists[c]];
    assert lists'.Keys == lists.Keys + {c} == cards;
    forall d, x
      ensures Listed(lists', d, x) <==> (d == c && x == b) || Listed(lists, d, x)
    {
      assert d == c ==> (x in lists'[d] <==> x == b || x in lists[c]);
    }
    hide Listed;
  }

  lemma WithoutOne(s: seq<Binding>, at: nat, x: Binding)
    requires at < |s| && forall i, j :: 0 <= i < j < |s| ==> s[i] != s[j]
    ensures x in s[..at] + s[at + 1..] <==> x in s && x != s[at]
  {
    var rest := s[..at] + s[at + 1..];
    if x in s && x != s[at] {
      var i :| 0 <= i < |s| && s[i] == x;
      assert rest[if i < at then i else i - 1] == x;
    }
    if x in rest {
      var i :| 0 <= i < |rest| && rest[i] == x;
      assert s[if i < at then i else i + 1] == x;
    }
  }

  lemma TableRemove(cards: set<Card>, lists: map<Card, seq<Binding>>, live: set<Binding>, nrSlots: nat, c: Card, at: nat)
    requires TableOk(cards, lists, live, nrSlots) && c in cards && c in lists && at < |lists[c]|
    requires forall i, j :: 0 <= i < j < |lists[c]| ==> lists[c][i] != lists[c][j]
    ensures lists[c][at] in live
    ensures TableOk(cards, lists[c := lists[c][..at] + lists[c][at + 1..]], live - {lists[c][at]}, nrSlots)
  {
    var b, rest := lists[c][at], lists[c][..at] + lists[c][at + 1..];
    assert Listed(lists, c, b);
    var lists' := lists[c := rest];
    assert lists'.Keys == lists.Keys + {c} == cards;
    forall d, x
      ensures Listed(lists', d, x) <==> Listed(lists, d, x) && !(d == c && x == b)
    {
      WithoutOne(lists[c], at, x);
    }
    hide Listed;
  }

  function Elements(s: seq<Binding>): set<Binding> {
    set b | b in s
  }

  lemma EmptyThere(cards: set<Card>, lists: map<Card, seq<Binding>>, live: set<Binding>, nrSlots: nat, c: Card)
    requires TableOk(cards, lists, live, nrSlots) && c in lists && c.slotId >= nrSlots
    ensures lists[c] == []
  {
    if lists[c] != [] {
      assert Listed(lists, c, lists[c][0]);
    }
  }

  lemma TableClear(cards: set<Card>, lists: map<Card, seq<Binding>>, live: set<Binding>, nrSlots: nat, c: Card)
    requires TableOk(cards, lists, live, nrSlots) && c in cards && c in lists
    ensures TableOk(cards, lists[c := []], live - Elements(lists[c]), nrSlots)
  {
    var lists' := lists[c := []];
    assert lists'.Keys == lists.Keys + {c} == cards && lists'[c] == [];
    assert forall d, x :: Listed(lists', d, x) <==> Listed(lists, d, x) && d != c;
    assert forall x :: x in Elements(lists[c]) <==> Listed(lists, c, x);
    hide Listed, Elements;
  }

  lemma TableAddCard(cards: set<Card>, lists: map<Card, seq<Binding>>, live: set<Binding>, nrSlots: nat, c: Card)
    requires TableOk(cards, lists, live, nrSlots) && c !in cards
    ensures TableOk(cards + {c}, lists[c := []], live, nrSlots)
  {
    var lists' := lists[c := []];
    assert lists'.Keys == lists.Keys + {c} == cards + {c} && lists'[c] == [];
    assert forall d, x :: Listed(lists', d, x) <==> Listed(lists, d, x);
    hide Listed;
  }

  lemma TableRemoveCard(cards: set<Card>, lists: map<Card, seq<Binding>>, live: set<Binding>, nrSlots: nat, c: Card)
    requires TableOk(cards, lists, live, nrSlots) && c in cards && c in lists && lists[c] == []
    ensures TableOk(cards - {c}, lists - {c}, live, nrSlots)
  {
    var lists' := lists - {c};
    assert lists'.Keys == lists.Keys - {c} == cards - {c};
    assert forall d, x :: Listed(lists', d, x) <==> Listed(lists, d, x);
    hide Listed;
  }

  /** A list has a binding for a port. */
  predicate BoundIn(list: seq<Binding>, port: nat) {
    exists i :: 0 <= i < |list| && list[i].port == port
  }

  /** What binding a port of a card does to lists and references, and when it succeeds. */
  ghost predicate Binds(c: Card?, port: nat, origPort: nat, name: string, refs: map<string, nat>,
                        refs': map<string, nat>, lists: map<Card, seq<Binding>>,
                        lists': map<Card, seq<Binding>>, ok: bool)
  {
    && (ok <==> c != null && name in refs && !(c in lists && BoundIn(lists[c], port)))
    && (ok ==>
          && c in lists' && c in lists && |lists'[c]| > 0 && lists' == lists[c := [lists'[c][0]] + lists[c]]
          && lists'[c][0].nio == name && lists'[c][0].port == port && lists'[c][0].origPort == origPort
          && refs' == refs[name := refs[name] + 1])
  }

  /** What unbinding a port of a card does to lists and references, and when it succeeds. */
  ghost predicate Unbinds(c: Card?, port: nat, refs: map<string, nat>, refs': map<string, nat>,
                          lists: map<Card, seq<Binding>>, lists': map<Card, seq<Binding>>, ok: bool)
  {
    && (ok <==> c != null && c in lists && BoundIn(lists[c], port))
    && (ok ==> exists i :: 0 <= i < |lists[c]| && lists[c][i].port == port &&
                 lists' == lists[c := lists[c][..i] + lists[c][i + 1..]] &&
                 var name := lists[c][i].nio;
                 name in refs && refs[name] > 0 && refs' == refs[name := refs[name] - 1])
  }

  lemma NothingBinds(port: nat, origPort: nat, name: string, refs: map<string, nat>, lists: map<Card, seq<Binding>>)
    ensures Binds(null, port, origPort, name, refs, refs, lists, lists, false)
  {}

  lemma NothingUnbinds(port: nat, refs: map<string, nat>, lists: map<Card, seq<Binding>>)
    ensures Unbinds(null, port, refs, refs, lists, lists, false)
  {}

  /** A port bound to an NIO: a node of the doubly linked list of its card. */
  class Binding {
    const nio: string
    const port: nat
    const origPort: nat
    ghost const owner: Card
    var prev: Binding?
    var next: Binding?

    constructor (nio: string, port: nat, origPort: nat, ghost owner: Card, next: Binding?)
      ensures this.nio == nio && this.port == port && this.origPort == origPort && this.owner == owner
      ensures prev == null && this.next == next
    {
      this.nio, this.port, this.origPort, this.owner := nio, port, origPort, owner;
      prev, this.next := null, next;
    }
  }

  class Card {
    const kind: CardType
    const slotId: nat
    const subslotId: nat
    const cardId: nat
    const driver: Driver
    const parent: Card?
    const subSlots: array<Card?>
    ghost const bay: nat
    var active: bool
    var nioList: Binding?
    ghost var nodes: seq<Binding>

    constructor (kind: CardType, slotId: nat, subslotId: nat, cardId: nat, driver: Driver, parent: Card?, ghost bay: nat)
      ensures this.kind == kind && this.slotId == slotId && this.subslotId == subslotId && this.cardId == cardId
      ensures this.driver == driver && this.parent == parent && this.bay == bay
      ensures fresh(subSlots) && subSlots.Length == MAX_SUBSLOTS && forall i :: 0 <= i < MAX_SUBSLOTS ==> subSlots[i] == null
      ensures !active && nioList == null && nodes == [] && ListOk()
    {
      this.kind, this.slotId, this.subslotId, this.cardId, this.driver := kind, slotId, subslotId, cardId, driver;
      this.parent, this.bay := parent, bay;
      subSlots := new Card?[MAX_SUBSLOTS](_ => null);
      active, nioList, nodes := false, null, [];
    }

    /** The `i`-th node is linked to its neighbours. */
    ghost predicate Linked(i: nat)
      requires i < |nodes|
      reads this, nodes
    {
      && nodes[i].prev == (if i == 0 then null else nodes[i - 1])
      && nodes[i].next == (if i + 1 < |nodes| then nodes[i + 1] else null)
    }

    /** The bindings form a doubly linked list of distinct nodes with distinct ports. */
    ghost predicate ListOk()
      reads this, nodes
    {
      && nioList == (if nodes == [] then null else nodes[0])
      && (forall i :: 0 <= i < |nodes| ==> Linked(i))
      && (forall b :: b in nodes ==> b.owner == this)
      && (forall i, j :: 0 <= i < j < |nodes| ==> nodes[i] != nodes[j] && nodes[i].port != nodes[j].port)
    }

    /** A list whose head and nodes are untouched stays well formed. */
    twostate lemma StillListed()
      requires old(ListOk()) && unchanged(this`nioList) && unchanged(this`nodes)
      requires forall b :: b in old(nodes) ==> unchanged(b)
      ensures ListOk()
    {
      forall i | 0 <= i < |nodes|
        ensures Linked(i)
      {
        assert old(Linked(i));
        assert nodes[i] in old(nodes);
      }
    }

    /** The binding of a port, with its place in the list. */
    method FindNioBinding(port: nat) returns (nb: Binding?, ghost at: nat)
      requires ListOk()
      ensures nb == null <==> !BoundIn(nodes, port)
      ensures nb != null ==> at < |nodes| && nodes[at] == nb && nb.port == port
    {
      nb, at := nioList, 0;
      while nb != null
        invariant at <= |nodes| && nb == (if at < |nodes| then nodes[at] else null)
        invariant forall i :: 0 <= i < at ==> nodes[i].port != port
        decreases |nodes| - at
      {
        assert Linked(at);
        if nb.port == port {
          return;
        }
        nb := nb.next;
        at := at + 1;
      }
    }

    /** Links a new binding at the head of the list. */
    method Push(nb: Binding)
      requires ListOk() && nb.owner == this && nb.prev == null && nb.next == nioList
      requires nb !in nodes && !BoundIn(nodes, nb.port)
      modifies this`nioList, this`nodes, nodes
      ensures ListOk() && nodes == [nb] + old(nodes)
    {
      forall i | 0 <= i < |nodes|
        ensures Linked(i)
      {}
      if nb.next != null {
        nb.next.prev := nb;
      }
      nioList := nb;
      nodes := [nb] + nodes;
      forall i | 0 <= i < |nodes|
        ensures Linked(i)
      {
        if i > 0 {
          assert old(Linked(i - 1));
        }
      }
    }

    /** Unlinks a binding from the list. */
    method Unlink(nb: Binding, ghost at: nat)
      requires ListOk() && at < |nodes| && nodes[at] == nb
      modifies this`nioList, this`nodes, nodes
      ensures ListOk() && nodes == old(nodes[..at] + nodes[at + 1..])
    {
      assert Linked(at);
      assert at > 0 ==> Linked(at - 1);
      assert at + 1 < |nodes| ==> Linked(at + 1);
      if nb.next != null {
        nb.next.prev := nb.prev;
      }
      if nb.prev != null {
        nb.prev.next := nb.next;
      } else {
        nioList := nb.next;
      }
      nodes := nodes[..at] + nodes[at + 1..];
      forall i | 0 <= i < |nodes|
        ensures Linked(i)
      {
        assert old(Linked(if i < at then i else i + 1));
      }
    }
  }

  /** A router: its slots, and how many references its cards hold on each registered NIO. */
  class Router {
    const slots: array<Card?>
    const nrSlots: nat
    const drivers: seq<Driver>
    const slotsType: CardType
    var refs: map<string, nat>
    ghost var cards: set<Card>
    ghost var live: set<Binding>
    ghost var arrays: set<array<Card?>>
    ghost var lists: map<Card, seq<Binding>>

    constructor (nrSlots: nat, drivers: seq<Driver>, slotsType: CardType)
      requires nrSlots <= MAX_SLOTS
      ensures Valid() && cards == {} && live == {} && refs == map[] && lists == map[]
      ensures arrays == {slots} && fresh(arrays)
      ensures this.nrSlots == nrSlots && this.drivers == drivers && this.slotsType == slotsType
    {
      this.nrSlots, this.drivers, this.slotsType := nrSlots, drivers, slotsType;
      slots := new Card?[MAX_SLOTS](_ => null);
      refs, cards, live, arrays, lists := map[], {}, {}, {slots}, map[];
    }

    /** Slots and sub-slots point to live cards that know where they are; no live card is anywhere else. */
    ghost predicate Tree()
      reads this`cards, this`arrays, arrays
    {
      && slots.Length == MAX_SLOTS && nrSlots <= MAX_SLOTS && slots in arrays
      && (forall c :: c in cards ==> c.subSlots.Length == MAX_SUBSLOTS && c.subSlots != slots && c.subSlots in arrays)
      && (forall c, d :: c in cards && d in cards && c != d ==> c.subSlots != d.subSlots)
      && (forall i :: 0 <= i < MAX_SLOTS && slots[i] != null ==> MainCard(slots[i], i))
      && (forall c :: c in cards && c.parent == null ==> c.slotId < MAX_SLOTS && slots[c.slotId] == c)
      && (forall c, i :: c in cards && 0 <= i < MAX_SUBSLOTS && c.subSlots[i] != null ==> SubCard(c, c.subSlots[i], i))
      && (forall c :: c in cards && c.parent != null ==>
            c.bay < MAX_SUBSLOTS && c.parent in cards && c.parent.subSlots[c.bay] == c)
    }

    ghost predicate MainCard(c: Card, i: int)
      reads this`cards
    {
      c in cards && c.parent == null && c.slotId == i
    }

    /** A sub-card's parent is the card in its slot. */
    ghost predicate SubCard(c: Card, sub: Card, i: int)
      reads this`cards
    {
      sub in cards && sub.parent == c && c.parent == null && sub.bay == i && sub.slotId == c.slotId
    }

    /** Every live card has the list that the table says, well linked. */
    ghost predicate Links()
      requires TableOk(cards, lists, live, nrSlots)
      reads this`cards, this`lists, this`live, cards, live
    {
      forall c :: c in cards ==> c.nodes == lists[c] && (ListLive(cards, lists, live, nrSlots, c); c.ListOk())
    }

    ghost predicate Valid()
      reads this, arrays, cards, live
    {
      Tree() && TableOk(cards, lists, live, nrSlots) && Links() && RefsOk(refs, live)
    }

    /** The list of a live card, as the table has it. */
    lemma ListNow(c: Card)
      requires TableOk(cards, lists, live, nrSlots) && Links() && c in cards
      ensures c in lists && c.nodes == lists[c] && c.ListOk()
      ensures forall b :: b in c.nodes ==> b in live && b.owner == c
    {
      ListLive(cards, lists, live, nrSlots, c);
    }

    method Attach(rc: Card, name: string, port: nat, origPort: nat)
      requires Valid() && rc in cards && rc.slotId < nrSlots && !BoundIn(rc.nodes, port) && name in refs
      modifies this`refs, this`live, this`lists, rc`nioList, rc`nodes, rc.nodes
      ensures Valid() && cards == old(cards) && refs == old(refs)[name := old(refs[name]) + 1]
      ensures |rc.nodes| > 0 && lists == old(lists)[rc := [rc.nodes[0]] + old(lists[rc])]
      ensures rc.nodes[0].nio == name && rc.nodes[0].port == port && rc.nodes[0].origPort == origPort
      ensures fresh(rc.nodes[0]) && live == old(live) + {rc.nodes[0]}
    {
      hide Router.Tree, RefsOk, Card.ListOk, TableOk, BoundIn, Router.Links;
      ListNow(rc);
      ghost var nodes := rc.nodes;
      var b := new Binding(name, port, origPort, rc, rc.nioList);
      RefsAdd(refs, live, b);
      TableAdd(cards, lists, live, nrSlots, rc, b);
      refs := refs[name := refs[name] + 1];
      rc.Push(b);
      live := live + {b};
      lists := lists[rc := [b] + lists[rc]];
      OthersLinked(rc);
    }

    /** When only one card and its bindings have been touched, the other lists are as they were. */
    twostate lemma OthersLinked(rc: Card)
      requires old(TableOk(cards, lists, live, nrSlots) && Links()) && rc in cards && cards == old(cards)
      requires TableOk(cards, lists, live, nrSlots) && rc in old(lists) && rc in lists
      requires lists == old(lists)[rc := lists[rc]]
      requires rc.nodes == lists[rc] && rc.ListOk()
      requires forall c :: c in cards && c != rc ==> unchanged(c)
      requires forall b :: b in old(live) && b.owner != rc ==> unchanged(b)
      ensures Links()
    {
      hide TableOk, Card.ListOk;
      forall c | c in cards && c != rc
        ensures c in lists && c.nodes == lists[c] && c.ListOk()
      {
        OldList(c);
        c.StillListed();
      }
    }

    twostate lemma OldList(c: Card)
      requires old(TableOk(cards, lists, live, nrSlots) && Links()) && c in old(cards)
      ensures c in old(lists) && old(c.nodes) == old(lists[c]) && old(c.ListOk())
      ensures forall b :: b in old(c.nodes) ==> b in old(live) && b.owner == c
    {
      ListLive(old(cards), old(lists), old(live), nrSlots, c);
    }

    /** Takes one binding off its list and gives its reference back. */
    method Detach(rc: Card, nb: Binding, ghost at: nat)
      requires Valid() && rc in cards && at < |rc.nodes| && rc.nodes[at] == nb
      modifies this`refs, this`live, this`lists, rc`nioList, rc`nodes, rc.nodes
      ensures Valid() && cards == old(cards) && live == old(live) - {nb}
      ensures rc in old(lists) && lists == old(lists)[rc := old(lists[rc][..at] + lists[rc][at + 1..])]
      ensures nb.nio in old(refs) && old(refs[nb.nio]) > 0 && refs == old(refs)[nb.nio := old(refs[nb.nio]) - 1]
    {
      hide Router.Tree, RefsOk, Card.ListOk, TableOk, Router.Links;
      ListNow(rc);
      RemoveFacts(rc, at);
      ghost var nodes := rc.nodes;
      rc.Unlink(nb, at);
      refs := refs[nb.nio := refs[nb.nio] - 1];
      live := live - {nb};
      lists := lists[rc := rc.nodes];
      OthersLinked(rc);
    }

    /** What taking one binding off a list does to references and lists. */
    lemma RemoveFacts(c: Card, at: nat)
      requires TableOk(cards, lists, live, nrSlots) && Links() && RefsOk(refs, live) && c in cards && at < |c.nodes|
      ensures var b := c.nodes[at];
              && b in live && b.nio in refs && refs[b.nio] > 0
              && RefsOk(refs[b.nio := refs[b.nio] - 1], live - {b})
              && TableOk(cards, lists[c := c.nodes[..at] + c.nodes[at + 1..]], live - {b}, nrSlots)
    {
      hide RefsOk, TableOk;
      ListNow(c);
      TableRemove(cards, lists, live, nrSlots, c, at);
      RefsRemove(refs, live, c.nodes[at]);
    }

    /** Drops every binding of a card: releases and frees them one by one, then empties the list. */
    method DropAll(rc: Card)
      requires Valid() && rc in cards
      modifies this`refs, this`live, this`lists, rc`nioList, rc`nodes
      ensures Valid() && cards == old(cards) && refs.Keys == old(refs.Keys)
      ensures rc in old(lists) && lists == old(lists)[rc := []] && live == old(live) - Elements(old(lists[rc]))
      ensures forall b :: b in old(live) && b.owner != rc ==> b in live
    {
      hide Router.Tree, RefsOk, TableOk, Router.Links;
      ListNow(rc);
      ghost var i, nodes := 0, rc.nodes;
      var nb := rc.nioList;
      while nb != null
        invariant i <= |nodes| && nb == (if i < |nodes| then nodes[i] else null)
        invariant live == old(live) - Elements(nodes[..i]) && RefsOk(refs, live) && refs.Keys == old(refs.Keys)
        modifies this`refs, this`live
        decreases |nodes| - i
      {
        assert rc.Linked(i);
        assert nb in live;
        RefsRemove(refs, live, nb);
        var next := nb.next;
        refs := refs[nb.nio := refs[nb.nio] - 1];
        live := live - {nb};
        assert nodes[..i + 1] == nodes[..i] + [nb];
        nb := next;
        i := i + 1;
      }
      assert nodes[..i] == nodes;
      TableClear(cards, lists, old(live), nrSlots, rc);
      rc.nioList, rc.nodes := null, [];
      lists := lists[rc := []];
      OthersLinked(rc);
    }

    predicate NoSubCards(c: Card)
      requires Tree() && c in cards
      reads this`cards, this`arrays, arrays
    {
      forall i :: 0 <= i < MAX_SUBSLOTS ==> c.subSlots[i] == null
    }

    /** The bay that a port belongs to: ports from 0x10 on go to the WICs of a network module that has any. */
    function GetInfo(slotId: nat, portId: nat): PortInfo
      requires slots.Length == MAX_SLOTS
      reads slots
    {
      if slotId >= MAX_SLOTS then NoPort
      else
        var card := slots[slotId];
        if card == null || card.kind != NetworkModule || card.driver.wicSlots == 0 then PortInfo(MainBay, portId)
        else
          var wic := portId / 16;
          if wic >= MAX_WIC + 1 then NoPort
          else if wic >= 1 then PortInfo(SubBay(wic - 1), portId % 16)
          else PortInfo(MainBay, portId)
    }

    /** No two ports of a slot have the same bay and number, and on a network module with WICs exactly the
        ports from 0x90 on have none. */
    lemma PortsDistinct(slotId: nat, p: nat, q: nat)
      requires slots.Length == MAX_SLOTS
      ensures GetInfo(slotId, p) == GetInfo(slotId, q) ==> p == q || GetInfo(slotId, p) == NoPort
      ensures if slotId < 16 then p < 16 ==> GetInfo(slotId, p) == PortInfo(MainBay, p) else GetInfo(slotId, p) == NoPort
      ensures slotId < MAX_SLOTS && slots[slotId] != null && slots[slotId].kind == NetworkModule &&
              slots[slotId].driver.wicSlots > 0 ==>
                && (GetInfo(slotId, p) == NoPort <==> p >= 0x90)
                && (forall w: nat :: 16 * (w + 1) <= p < 16 * (w + 2) && w < MAX_WIC ==>
                      GetInfo(slotId, p) == PortInfo(SubBay(w), p - 16 * (w + 1)))
    {}

    /** The card in a bay, if there is one. */
    function CardAt(slotId: nat, bay: Bay): (c: Card?)
      requires Tree() && slotId < MAX_SLOTS
      reads this`cards, this`arrays, arrays
      ensures c != null ==> c in cards && c.slotId == slotId
    {
      var main := slots[slotId];
      if bay == MainBay || main == null then main
      else if bay.i >= MAX_SUBSLOTS then null
      else main.subSlots[bay.i]
    }

    /** The card that a port of a configurable slot belongs to. */
    function PortCard(slotId: nat, portId: nat): (c: Card?)
      requires Tree()
      reads this`cards, this`arrays, arrays
      ensures c != null ==> c in cards && c.slotId == slotId < nrSlots && GetInfo(slotId, portId).PortInfo?
    {
      if slotId >= nrSlots || slots[slotId] == null || GetInfo(slotId, portId).NoPort? then null
      else CardAt(slotId, GetInfo(slotId, portId).bay)
    }

    /** The number of a port on its card. */
    function RealPort(slotId: nat, portId: nat): nat
      requires Tree()
      reads this`cards, this`arrays, arrays
    {
      var info := GetInfo(slotId, portId);
      if info.PortInfo? then info.port else portId
    }

    /** A configurable slot with a network module that carries WICs. */
    predicate HasWics(slotId: nat)
      requires Tree()
      reads this`cards, this`arrays, arrays
    {
      && slotId < nrSlots && slots[slotId] != null
      && slots[slotId].kind == NetworkModule && slots[slotId].driver.wicSlots > 0
    }

    /** The card and the number of a port, bay by bay. */
    lemma PortPlaces(slotId: nat, portId: nat)
      requires Tree()
      ensures HasWics(slotId) ==> slots[slotId] in cards && slots[slotId].subSlots.Length == MAX_SUBSLOTS
      ensures 16 <= portId < 0x90 && HasWics(slotId) ==>
                && PortCard(slotId, portId) == slots[slotId].subSlots[portId / 16 - 1]
                && RealPort(slotId, portId) == portId % 16
      ensures slotId < nrSlots && slots[slotId] != null && (portId < 16 || !HasWics(slotId)) ==>
                PortCard(slotId, portId) == slots[slotId] && RealPort(slotId, portId) == portId
      ensures slotId >= nrSlots || slots[slotId] == null || (portId >= 0x90 && HasWics(slotId)) ==>
                PortCard(slotId, portId) == null
    {
      SlotCard(slotId);
    }

    /** Binds a port to a registered NIO; the binding goes to the head of the card's list. */
    method AddNioBinding(slotId: nat, portId: nat, name: string) returns (ok: bool)
      requires Valid()
      modifies this`refs, this`live, this`lists, cards`nioList, cards`nodes, live
      ensures Valid() && cards == old(cards) && fresh(live - old(live)) && old(live) <= live
      ensures Binds(old(PortCard(slotId, portId)), old(RealPort(slotId, portId)), portId, name,
                    old(refs), refs, old(lists), lists, ok)
      ensures !ok ==> refs == old(refs) && lists == old(lists)
      ensures 16 <= portId < 0x90 && old(HasWics(slotId)) ==>
                Binds(old(slots[slotId].subSlots[portId / 16 - 1]), portId % 16, portId, name,
                      old(refs), refs, old(lists), lists, ok)
      ensures slotId < nrSlots && old(slots[slotId]) != null && (portId < 16 || !old(HasWics(slotId))) ==>
                Binds(old(slots[slotId]), portId, portId, name, old(refs), refs, old(lists), lists, ok)
      ensures slotId >= nrSlots || old(slots[slotId]) == null || (portId >= 0x90 && old(HasWics(slotId))) ==> !ok
    {
      PortPlaces(slotId, portId);
      NothingBinds(RealPort(slotId, portId), portId, name, refs, lists);
      hide Router.PortCard, Router.RealPort, Router.HasWics, Binds, Router.Valid;
      var rc := PortCard(slotId, portId);
      if rc == null {
        return false;
      }
      PortCardLives(slotId, portId);
      ok := BindOn(rc, RealPort(slotId, portId), portId, name);
    }

    lemma PortCardLives(slotId: nat, portId: nat)
      requires Valid() && PortCard(slotId, portId) != null
      ensures PortCard(slotId, portId) in cards && PortCard(slotId, portId).slotId < nrSlots
    {
      hide TableOk, RefsOk, Router.Links;
    }

    /** Binds a port of a card, if it is free and the NIO is registered. */
    method BindOn(rc: Card, port: nat, origPort: nat, name: string) returns (ok: bool)
      requires Valid() && rc in cards && rc.slotId < nrSlots
      modifies this`refs, this`live, this`lists, cards`nioList, cards`nodes, live
      ensures Valid() && cards == old(cards) && fresh(live - old(live)) && old(live) <= live
      ensures Binds(rc, port, origPort, name, old(refs), refs, old(lists), lists, ok)
      ensures !ok ==> refs == old(refs) && lists == old(lists)
    {
      hide Router.CardAt, Router.Links, TableOk, RefsOk, Card.ListOk, Router.Tree;
      ListNow(rc);
      var nb, at := rc.FindNioBinding(port);
      if nb != null || name !in refs {
        return false;
      }
      Attach(rc, name, port, origPort);
      ok := true;
    }

    /** Unbinds a port and gives its NIO's reference back. */
    method RemoveNioBinding(slotId: nat, portId: nat) returns (ok: bool)
      requires Valid()
      modifies this`refs, this`live, this`lists, cards`nioList, cards`nodes, live
      ensures Valid() && cards == old(cards) && live <= old(live)
      ensures forall b :: b in old(live) && b.owner.slotId != slotId ==> b in live
      ensures Unbinds(old(PortCard(slotId, portId)), old(RealPort(slotId, portId)),
                      old(refs), refs, old(lists), lists, ok)
      ensures !ok ==> refs == old(refs) && lists == old(lists)
      ensures 16 <= portId < 0x90 && old(HasWics(slotId)) ==>
                Unbinds(old(slots[slotId].subSlots[portId / 16 - 1]), portId % 16,
                        old(refs), refs, old(lists), lists, ok)
      ensures slotId < nrSlots && old(slots[slotId]) != null && (portId < 16 || !old(HasWics(slotId))) ==>
                Unbinds(old(slots[slotId]), portId, old(refs), refs, old(lists), lists, ok)
      ensures slotId >= nrSlots || old(slots[slotId]) == null || (portId >= 0x90 && old(HasWics(slotId))) ==> !ok
    {
      PortPlaces(slotId, portId);
      NothingUnbinds(RealPort(slotId, portId), refs, lists);
      hide Router.PortCard, Router.RealPort, Router.HasWics, Unbinds, Router.Valid;
      var rc := PortCard(slotId, portId);
      if rc == null {
        return false;
      }
      PortCardLives(slotId, portId);
      ok := UnbindFrom(rc, RealPort(slotId, portId));
    }

    /** Unbinds a port of a card, if it is bound. */
    method UnbindFrom(rc: Card, port: nat) returns (ok: bool)
      requires Valid() && rc in cards
      modifies this`refs, this`live, this`lists, cards`nioList, cards`nodes, live
      ensures Valid() && cards == old(cards) && live <= old(live)
      ensures forall b :: b in old(live) && b.owner != rc ==> b in live
      ensures Unbinds(rc, port, old(refs), refs, old(lists), lists, ok)
      ensures !ok ==> refs == old(refs) && lists == old(lists)
    {
      hide Router.CardAt, Router.Links, TableOk, RefsOk, Card.ListOk, Router.Tree;
      ListNow(rc);
      var nb, at := rc.FindNioBinding(port);
      if nb == null {
        return false;
      }
      Detach(rc, nb, at);
      ok := true;
    }

    /** What the lists are once a slot has lost its bindings. */
    ghost function Emptied(l: map<Card, seq<Binding>>, slotId: nat): (r: map<Card, seq<Binding>>)
      ensures r.Keys == l.Keys
    {
      map c | c in l :: if c.slotId == slotId then [] else l[c]
    }

    /** Drops every binding of a slot, sub-cards included, and of no other slot. */
    method RemoveAllNioBindings(slotId: nat) returns (ok: bool)
      requires Valid()
      modifies this`refs, this`live, this`lists, cards`nioList, cards`nodes
      ensures Valid() && cards == old(cards) && refs.Keys == old(refs.Keys) && live <= old(live)
      ensures forall b :: b in old(live) && b.owner.slotId != slotId ==> b in live
      ensures ok <==> slotId < nrSlots && slots[slotId] != null
      ensures lists == if ok then Emptied(old(lists), slotId) else old(lists)
      ensures !ok ==> refs == old(refs)
    {
      hide Router.Links, TableOk, RefsOk, Card.ListOk, Router.Tree;
      SlotCard(slotId);
      if slotId >= nrSlots || slots[slotId] == null {
        return false;
      }
      var main := slots[slotId];
      ghost var before := lists;
      KeysAreCards();
      DropAll(main);
      for i := 0 to MAX_SUBSLOTS
        invariant Valid() && cards == old(cards) && refs.Keys == old(refs.Keys) && lists.Keys == cards
        invariant live <= old(live) && forall b :: b in old(live) && b.owner.slotId != slotId ==> b in live
        invariant forall c :: c in cards ==>
                    lists[c] == if c == main || (c.parent == main && c.bay < i) then [] else before[c]
      {
        var sub := main.subSlots[i];
        SubSlotCard(main, i);
        if sub != null {
          DropAll(sub);
        }
      }
      forall c | c in cards
        ensures lists[c] == if c.slotId == slotId then [] else before[c]
      {
        InSlot(c, slotId);
      }
      assert lists == Emptied(before, slotId);
      ok := true;
    }

    lemma SlotCard(slotId: nat)
      requires Tree()
      ensures nrSlots <= MAX_SLOTS == slots.Length
      ensures slotId < MAX_SLOTS && slots[slotId] != null ==>
                slots[slotId] in cards && slots[slotId].subSlots.Length == MAX_SUBSLOTS && slots[slotId].parent == null &&
                slots[slotId].slotId == slotId
    {
      if slotId < MAX_SLOTS && slots[slotId] != null {
        assert MainCard(slots[slotId], slotId);
      }
    }

    /** A sub-slot holds the card that says it is there. */
    lemma SubSlotCard(main: Card, i: nat)
      requires Tree() && main in cards && i < MAX_SUBSLOTS && main.subSlots.Length == MAX_SUBSLOTS
      ensures main.subSlots[i] != null ==> SubCard(main, main.subSlots[i], i)
      ensures forall c :: c in cards && c.parent == main && c.bay == i ==> c == main.subSlots[i]
    {}

    lemma KeysAreCards()
      requires TableOk(cards, lists, live, nrSlots)
      ensures lists.Keys == cards
    {}

    /** The cards of a slot are its main card and that card's sub-cards. */
    lemma InSlot(c: Card, slotId: nat)
      requires Tree() && c in cards && slotId < MAX_SLOTS && slots[slotId] != null
      ensures c.slotId == slotId <==> c == slots[slotId] || (c.parent == slots[slotId] && c.bay < MAX_SUBSLOTS)
    {
      if c.parent != null {
        assert SubCard(c.parent, c.parent.subSlots[c.bay], c.bay);
      }
      assert MainCard(slots[slotId], slotId);
    }

    /** Frees the card of a bay. A card that is active or has sub-cards stays; the others lose all bindings of
        their slot, those of sibling cards included. */
    method RemoveBinding(slotId: nat, portId: nat) returns (ok: bool)
      requires Valid()
      modifies this`refs, this`live, this`lists, this`cards, cards`nioList, cards`nodes, arrays
      ensures Valid() && live <= old(live) && refs.Keys == old(refs.Keys)
      ensures forall b :: b in old(live) && b.owner.slotId != slotId ==> b in live
      ensures var info := old(GetInfo(slotId, portId));
              && (ok <==> info.PortInfo? && var c := old(CardAt(slotId, info.bay));
                          c != null && !old(c.active) && old(NoSubCards(c)))
              && (ok ==>
                    && var c := old(CardAt(slotId, info.bay));
                    && cards == old(cards) - {c}
                    && lists == Emptied(old(lists), slotId) - {c})
      ensures !ok ==> cards == old(cards) && lists == old(lists) && refs == old(refs)
    {
      hide Router.Links, TableOk, RefsOk, Card.ListOk;
      var info := GetInfo(slotId, portId);
      if info == NoPort {
        return false;
      }
      var rc := CardAt(slotId, info.bay);
      if rc == null || rc.active {
        return false;
      }
      for i := 0 to MAX_SUBSLOTS
        invariant forall j :: 0 <= j < i ==> rc.subSlots[j] == null
      {
        if rc.subSlots[i] != null {
          return false;
        }
      }
      ghost var before := lists;
      var dropped := RemoveAllNioBindings(slotId);
      if !dropped {
        NoneThere(slotId);
      }
      KeysAreCards();
      Free(rc, slotId, info.bay);
      ok := true;
    }

    /** A slot that cannot be configured has no bindings to drop. */
    lemma NoneThere(slotId: nat)
      requires TableOk(cards, lists, live, nrSlots) && slotId >= nrSlots
      ensures Emptied(lists, slotId) == lists
    {
      forall c | c in lists && c.slotId == slotId
        ensures lists[c] == []
      {
        EmptyThere(cards, lists, live, nrSlots, c);
      }
    }

    /** Takes a card without sub-cards out of its bay. */
    method ClearBay(rc: Card, slotId: nat, bay: Bay)
      requires Tree() && slotId < MAX_SLOTS && CardAt(slotId, bay) == rc && rc in cards && NoSubCards(rc)
      requires bay == MainBay || rc.parent != null
      modifies this`cards, arrays
      ensures Tree() && cards == old(cards) - {rc}
      ensures forall s: nat, b :: s < MAX_SLOTS ==>
                CardAt(s, b) == if old(CardAt(s, b)) == rc then null else old(CardAt(s, b))
    {
      if bay == MainBay {
        slots[slotId] := null;
      } else {
        slots[slotId].subSlots[bay.i] := null;
      }
      cards := cards - {rc};
    }

    method Free(rc: Card, slotId: nat, bay: Bay)
      requires Valid() && slotId < MAX_SLOTS && CardAt(slotId, bay) == rc && rc in cards
      requires NoSubCards(rc) && rc in lists && lists[rc] == [] && (bay == MainBay || rc.parent != null)
      modifies this`cards, this`lists, arrays
      ensures Valid() && cards == old(cards) - {rc} && lists == old(lists) - {rc}
      ensures forall s: nat, b :: s < MAX_SLOTS ==>
                CardAt(s, b) == if old(CardAt(s, b)) == rc then null else old(CardAt(s, b))
    {
      hide RefsOk, Router.Tree, TableOk, Router.CardAt, Card.ListOk;
      TableRemoveCard(cards, lists, live, nrSlots, rc);
      ClearBay(rc, slotId, bay);
      lists := lists - {rc};
      forall c | c in cards
        ensures c in lists && c.nodes == lists[c] && c.ListOk()
      {
        OldList(c);
      }
    }

    /** The drivers and the card type that a new card in an empty bay can have: the router's for a main bay,
        and for a sub-slot what the driver of the card above answers. */
    function Choices(slotId: nat, answer: SubInfo): SubInfo
      requires Tree() && slotId < MAX_SLOTS
      reads this`cards, this`arrays, arrays
    {
      if slots[slotId] == null then SubInfo(drivers, slotsType)
      else if slots[slotId].driver.hasSubInfo then answer
      else NoSubInfo
    }

    /** Puts a new card in an empty bay. `answer` is what the driver of the main card says about sub-slots. */
    method AddBinding(devType: string, slotId: nat, portId: nat, answer: SubInfo) returns (ok: bool)
      requires Valid()
      modifies this`cards, this`lists, this`arrays, arrays
      ensures Valid() && fresh(arrays - old(arrays)) && fresh(cards - old(cards)) && old(arrays) <= arrays
      ensures var info := old(GetInfo(slotId, portId));
              && (ok <==> info.PortInfo? && old(CardAt(slotId, info.bay)) == null &&
                          var ch := old(Choices(slotId, answer)); ch.SubInfo? && FindDriver(ch.drivers, devType) >= 0)
              && (ok ==>
                    var c := CardAt(slotId, info.bay); var ch := old(Choices(slotId, answer));
                    && c != null && fresh(c) && !c.active && cards == old(cards) + {c} && lists == old(lists)[c := []]
                    && c.kind == ch.kind && c.driver == ch.drivers[FindDriver(ch.drivers, devType)]
                    && c.slotId == slotId && c.subslotId == portId && c.parent == old(slots[slotId])
                    && c.cardId == if c.parent == null then slotId else portId)
      ensures !ok ==> cards == old(cards) && lists == old(lists)
      ensures slotId < MAX_SLOTS && old(slots[slotId]) == null ==>
                && (ok <==> exists i :: 0 <= i < |drivers| && drivers[i].devType == devType)
                && (ok ==> slots[slotId] != null && fresh(slots[slotId]) && slots[slotId].kind == slotsType)
      ensures ok && old(slots[slotId]) != null ==>
                && slots[slotId] == old(slots[slotId]) && slots[slotId].driver.hasSubInfo && answer.SubInfo?
                && (exists i :: 0 <= i < |answer.drivers| && answer.drivers[i].devType == devType)
    {
      hide RefsOk, Router.Links, TableOk, Card.ListOk;
      var info := GetInfo(slotId, portId);
      if info == NoPort {
        return false;
      }
      if CardAt(slotId, info.bay) != null {
        return false;
      }
      var card := slots[slotId];
      var choices :=
        if card == null then SubInfo(drivers, slotsType) else if card.driver.hasSubInfo then answer else NoSubInfo;
      if choices == NoSubInfo {
        return false;
      }
      var k := FindDriver(choices.drivers, devType);
      if k == -1 {
        return false;
      }
      var cardId := if card == null then slotId else portId;
      ghost var bay := if info.bay == MainBay then 0 else info.bay.i;
      var nc := new Card(choices.kind, slotId, portId, cardId, choices.drivers[k], card, bay);
      Install(nc, info.bay);
      ok := true;
    }

    /** Stores a new card in its empty bay. */
    method Install(nc: Card, bay: Bay)
      requires Valid() && nc !in cards && nc.nodes == [] && nc.nioList == null && nc.slotId < MAX_SLOTS
      requires nc.subSlots.Length == MAX_SUBSLOTS && nc.subSlots !in arrays && nc.parent == slots[nc.slotId]
      requires forall i :: 0 <= i < MAX_SUBSLOTS ==> nc.subSlots[i] == null
      requires CardAt(nc.slotId, bay) == null
      requires if nc.parent == null then bay == MainBay else bay == SubBay(nc.bay) && nc.bay < MAX_SUBSLOTS
      modifies this`cards, this`lists, this`arrays, arrays
      ensures Valid() && cards == old(cards) + {nc} && lists == old(lists)[nc := []] && CardAt(nc.slotId, bay) == nc
      ensures arrays == old(arrays) + {nc.subSlots}
    {
      hide RefsOk, TableOk, Router.Tree, Card.ListOk, Router.CardAt;
      TableAddCard(cards, lists, live, nrSlots, nc);
      FillBay(nc, bay);
      lists := lists[nc := []];
      forall c | c in cards
        ensures c in lists && c.nodes == lists[c] && c.ListOk()
      {
        if c == nc {
          NoNodes(nc);
        } else {
          OldList(c);
        }
      }
    }

    lemma NoNodes(c: Card)
      requires c.nodes == [] && c.nioList == null
      ensures c.ListOk()
    {}

    method FillBay(nc: Card, bay: Bay)
      requires Tree() && nc !in cards && nc.slotId < MAX_SLOTS
      requires nc.subSlots.Length == MAX_SUBSLOTS && nc.subSlots !in arrays && nc.parent == slots[nc.slotId]
      requires forall i :: 0 <= i < MAX_SUBSLOTS ==> nc.subSlots[i] == null
      requires CardAt(nc.slotId, bay) == null
      requires if nc.parent == null then bay == MainBay else bay == SubBay(nc.bay) && nc.bay < MAX_SUBSLOTS
      modifies this`cards, this`arrays, arrays
      ensures Tree() && cards == old(cards) + {nc} && CardAt(nc.slotId, bay) == nc
      ensures arrays == old(arrays) + {nc.subSlots}
    {
      if bay == MainBay {
        slots[nc.slotId] := nc;
      } else {
        slots[nc.slotId].subSlots[bay.i] := nc;
      }
      cards := cards + {nc};
      arrays := arrays + {nc.subSlots};
    }

    // ---------- What the invariant gives ----------

    /** A card stays where it is for as long as it has sub-cards: theirs is the card in their slot. */
    lemma ParentInSlot(c: Card)
      requires Valid() && c in cards && c.parent != null
      ensures c.slotId < MAX_SLOTS && slots[c.slotId] == c.parent && !NoSubCards(c.parent)
    {
      assert SubCard(c.parent, c.parent.subSlots[c.bay], c.bay);
    }

    /** Some port of a card is bound to the NIO. */
    ghost predicate BoundTo(nio: string)
      reads this`cards, cards
    {
      exists c :: c in cards && exists i :: 0 <= i < |c.nodes| && c.nodes[i].nio == nio
    }

    /** Cards hold a reference on an NIO exactly when a port of some card is bound to it. */
    lemma ReferencedIffBound(nio: string)
      requires Valid() && nio in refs
      ensures refs[nio] > 0 <==> BoundTo(nio)
    {
      hide Router.Tree, Card.ListOk;
      var named := Naming(live, nio);
      if refs[nio] > 0 {
        assert named != {};
        var b :| b in named;
        ListNow(b.owner);
        assert b in b.owner.nodes;
      }
      if c :| c in cards && exists i :: 0 <= i < |c.nodes| && c.nodes[i].nio == nio {
        ListNow(c);
        var i :| 0 <= i < |c.nodes| && c.nodes[i].nio == nio;
        assert c.nodes[i] in c.nodes;
        assert c.nodes[i] in named;
      }
    }

    // ---------- The registry, and the state of a card ----------

    /** Registers an NIO under a new name. */
    method RegisterNio(name: string) returns (ok: bool)
      requires Valid()
      modifies this`refs
      ensures Valid() && (ok <==> name !in old(refs)) && refs == if ok then old(refs)[name := 0] else old(refs)
    {
      ok := name !in refs;
      if ok {
        NoneNamed(name);
        refs := refs[name := 0];
      }
    }

    lemma NoneNamed(name: string)
      requires RefsOk(refs, live) && name !in refs
      ensures |Naming(live, name)| == 0
    {
      assert Naming(live, name) == {};
    }

    /** Deletes an NIO that neither cards nor `others` refer to; no port is bound to it then. */
    method DeleteNio(name: string, others: nat) returns (ok: bool)
      requires Valid()
      modifies this`refs
      ensures Valid() && (ok <==> name in old(refs) && old(refs[name]) + others == 0)
      ensures refs == if ok then old(refs) - {name} else old(refs)
      ensures ok ==> forall b :: b in live ==> b.nio != name
    {
      ok := name in refs && refs[name] + others == 0;
      if ok {
        forall b | b in live
          ensures b.nio != name
        {
          assert b in Naming(live, b.nio);
        }
        refs := refs - {name};
      }
    }

    /** A card's driver starts or stops. */
    method SetActive(c: Card, on: bool)
      requires Valid() && c in cards
      modifies c`active
      ensures Valid() && c.active == on
    {
      hide Router.Tree, TableOk, RefsOk;
      c.active := on;
      forall d | d in cards
        ensures d in lists && d.nodes == lists[d] && d.ListOk()
      {
        OldList(d);
        d.StillListed();
      }
    }

    // ---------- Any run of commands ----------

    /** Cards, arrays and bindings are those that the router had before, or new ones. */
    twostate predicate Grown()
      reads this`cards, this`arrays, this`live
    {
      fresh(cards - old(cards)) && fresh(arrays - old(arrays)) && fresh(live - old(live))
    }

    /** The slot that a command can take bindings from. */
    predicate Clears(command: Command, slotId: nat) {
      (command.Unbind? || command.RemoveCard?) && command.slotId == slotId
    }

    method Execute(command: Command) returns (ok: bool)
      requires Valid()
      modifies this, cards`nioList, cards`nodes, live, arrays
      ensures Valid() && Grown()
      ensures match command
              case Bind(s, p, nio) =>
                Binds(old(PortCard(s, p)), old(RealPort(s, p)), p, nio, old(refs), refs, old(lists), lists, ok)
              case Unbind(s, p) =>
                Unbinds(old(PortCard(s, p)), old(RealPort(s, p)), old(refs), refs, old(lists), lists, ok)
              case AddCard(devType, s, p, _) =>
                ok ==> exists c :: cards == old(cards) + {c} && c !in old(cards) && c.driver.devType == devType &&
                         c.slotId == s && c.subslotId == p && lists == old(lists)[c := []]
              case RemoveCard(s, p) =>
                ok ==> exists c :: c in old(cards) && c.slotId == s && cards == old(cards) - {c} &&
                         lists == Emptied(old(lists), s) - {c}
              case CreateNio(n) => (ok <==> n !in old(refs)) && (ok ==> refs == old(refs)[n := 0])
              case DropNio(n, others) =>
                (ok <==> n in old(refs) && old(refs[n]) + others == 0) && (ok ==> refs == old(refs) - {n})
      ensures !ok ==> refs == old(refs) && lists == old(lists) && cards == old(cards)
      ensures command.CreateNio? || command.DropNio? ==> lists == old(lists) && cards == old(cards)
      ensures command.AddCard? ==> refs == old(refs)
      ensures command.RemoveCard? ==> refs.Keys == old(refs.Keys)
      ensures forall b :: b in old(live) && !Clears(command, b.owner.slotId) ==> b in live
    {
      hide Router.Valid;
      match command {
        case AddCard(devType, slotId, portId, answer) => ok := AddBinding(devType, slotId, portId, answer);
        case RemoveCard(slotId, portId) => ok := RemoveBinding(slotId, portId);
        case Bind(slotId, portId, nio) => ok := AddNioBinding(slotId, portId, nio);
        case Unbind(slotId, portId) => ok := RemoveNioBinding(slotId, portId);
        case CreateNio(nio) => ok := RegisterNio(nio);
        case DropNio(nio, others) => ok := DeleteNio(nio, others);
      }
    }

    /** Serves a connection: whatever commands come, in whatever order, the invariant holds after each; the names
        are those there were or were created, less what was dropped, and no command loses bindings of a slot but
        the two that say so. */
    method Serve(commands: seq<Command>) returns (replies: seq<bool>)
      requires Valid()
      modifies this, cards`nioList, cards`nodes, live, arrays
      ensures Valid() && Grown() && |replies| == |commands|
      ensures forall n :: n in refs ==> (refs[n] > 0 <==> BoundTo(n))
      ensures forall n :: n in refs ==> n in old(refs) || CreateNio(n) in commands
      ensures forall n :: (n in old(refs) || CreateNio(n) in commands) && NeverDropped(commands, n) ==> n in refs
      ensures forall b :: b in old(live) && NeverCleared(commands, b.owner.slotId) ==> b in live
      ensures forall i, n :: 0 <= i < |commands| && commands[i] == CreateNio(n) && Untouched(commands, i, n) ==>
                (replies[i] <==> n !in old(refs))
    {
      hide Router.Valid;
      replies := [];
      for i := 0 to |commands|
        invariant Valid() && Grown() && |replies| == i
        invariant forall n :: n in refs ==> n in old(refs) || CreateNio(n) in commands[..i]
        invariant forall n :: (n in old(refs) || CreateNio(n) in commands[..i]) && NeverDropped(commands, n) ==> n in refs
        invariant forall b :: b in old(live) && NeverCleared(commands, b.owner.slotId) ==> b in live
        invariant forall n :: Untouched(commands, i, n) ==> (n in refs <==> n in old(refs))
        invariant forall k, n :: 0 <= k < i && commands[k] == CreateNio(n) && Untouched(commands, k, n) ==>
                    (replies[k] <==> n !in old(refs))
      {
        var ok := Execute(commands[i]);
        replies := replies + [ok];
        assert commands[..i + 1] == commands[..i] + [commands[i]];
      }
      assert commands[..|commands|] == commands;
      forall n | n in refs
        ensures refs[n] > 0 <==> BoundTo(n)
      {
        ReferencedIffBound(n);
      }
    }

    predicate NeverDropped(commands: seq<Command>, n: string) {
      forall i :: 0 <= i < |commands| && commands[i].DropNio? ==> commands[i].nio != n
    }

    /** No command before the `k`-th creates or drops the name. */
    predicate Untouched(commands: seq<Command>, k: nat, n: string)
      requires k <= |commands|
    {
      forall i :: 0 <= i < k && (commands[i].CreateNio? || commands[i].DropNio?) ==> commands[i].nio != n
    }

    predicate NeverCleared(commands: seq<Command>, slotId: nat) {
      forall i :: 0 <= i < |commands| ==> !Clears(commands[i], slotId)
    }
  }
}
