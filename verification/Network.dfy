/** Merging the networks that an enumeration finds into those that are already known. */
module NetworkManager {
  import opened Bytes
  import opened IpAddresses

  type Key = seq<byte>

  datatype InterfaceAddress = InterfaceAddress(ip: Ip, flags: nat)

  const UNKNOWN: nat := 0   // ADAPTER_TYPE_UNKNOWN

  /** What `SetIPs` takes for a difference. */
  predicate IpsDiffer(old_: seq<InterfaceAddress>, new_: seq<InterfaceAddress>) {
    |new_| != |old_| || exists i | 0 <= i < |new_| :: new_[i] !in old_
  }

  ghost predicate NoDuplicates<T>(s: seq<T>) {
    forall i, j | 0 <= i < j < |s| :: s[i] != s[j]
  }

  ghost function Elements<T>(s: seq<T>): set<T> { set x | x in s }

  lemma {:induction false} ElementsBound<T>(s: seq<T>)
    ensures |Elements(s)| <= |s|
    ensures |Elements(s)| == |s| <==> NoDuplicates(s)
    decreases |s|
  {
    if s == [] {
      assert Elements(s) == {};
    } else {
      var n := |s| - 1;
      var rest := s[..n];
      ElementsBound(rest);
      assert Elements(s) == Elements(rest) + {s[n]};
      if s[n] in rest {
        var i :| 0 <= i < n && s[i] == s[n];
        assert !NoDuplicates(s);
        assert Elements(s) == Elements(rest);
      } else {
        assert NoDuplicates(rest) ==> NoDuplicates(s);
        assert NoDuplicates(s) ==> NoDuplicates(rest) by {
          if NoDuplicates(s) {
            assert forall i, j | 0 <= i < j < n :: rest[i] != rest[j];
          }
        }
      }
    }
  }

  /** Among lists without repetition, one inside another of the same length is all of it. */
  lemma Pigeonhole<T>(a: seq<T>, b: seq<T>)
    requires NoDuplicates(a) && (forall x | x in a :: x in b)
    ensures |a| <= |b|
    ensures |a| == |b| ==> forall x | x in b :: x in a
  {
    ElementsBound(a);
    ElementsBound(b);
    assert Elements(a) <= Elements(b);
    SubsetSize(Elements(a), Elements(b));
    forall x | x in b && |a| == |b| ensures x in a {
      assert x in Elements(b);
    }
  }

  lemma SubsetSize<T>(a: set<T>, b: set<T>)
    requires a <= b
    ensures |a| <= |b| && (|a| == |b| ==> a == b)
  {
    var rest := b - a;
    assert b == a + rest && a !! rest;
    assert |b| == |a| + |rest|;
    if |a| == |b| {
      assert rest == {};
    }
  }

  /** When no difference is reported and the new list repeats nothing, the addresses are the same. */
  lemma UnreportedMeansSame(old_: seq<InterfaceAddress>, new_: seq<InterfaceAddress>)
    requires !IpsDiffer(old_, new_) && NoDuplicates(new_)
    ensures Elements(new_) == Elements(old_)
  {
    Pigeonhole(new_, old_);
  }

  /** A list that repeats an address hides the loss of another one. */
  lemma RepetitionHidesLoss(new_: seq<InterfaceAddress>, lost: InterfaceAddress) returns (old_: seq<InterfaceAddress>)
    requires !NoDuplicates(new_) && lost !in new_
    ensures !IpsDiffer(old_, new_) && Elements(new_) != Elements(old_)
  {
    var i, j :| 0 <= i < j < |new_| && new_[i] == new_[j];
    old_ := new_[j := lost];
    forall k | 0 <= k < |new_| ensures new_[k] in old_ {
      assert old_[i] == new_[j];
      assert k != j ==> old_[k] == new_[k];
    }
    assert old_[j] == lost;
    assert lost in Elements(old_) && lost !in Elements(new_);
  }

  function HighestFlags(list: seq<InterfaceAddress>): nat {
    if list == [] then 0 else Max(list[0].flags, HighestFlags(list[1..]))
  }

  lemma {:induction false} HighestFlagsIs(list: seq<InterfaceAddress>, a: InterfaceAddress)
    requires a in list
    ensures a.flags <= HighestFlags(list)
    decreases |list|
  {
    if a != list[0] { HighestFlagsIs(list[1..], a); }
  }

  /** There is always another address. */
  lemma AnotherAddress(list: seq<InterfaceAddress>) returns (a: InterfaceAddress)
    ensures a !in list
  {
    a := InterfaceAddress(Unspec, HighestFlags(list) + 1);
    if a in list { HighestFlagsIs(list, a); }
  }

  /** Which lists `SetIPs` can be trusted with, whatever the network had before. */
  lemma TrustedIffNoDuplicates(new_: seq<InterfaceAddress>)
    ensures NoDuplicates(new_) <==> forall old_ | !IpsDiffer(old_, new_) :: Elements(new_) == Elements(old_)
  {
    if NoDuplicates(new_) {
      forall old_ | !IpsDiffer(old_, new_) ensures Elements(new_) == Elements(old_) {
        UnreportedMeansSame(old_, new_);
      }
    } else {
      var another := AnotherAddress(new_);
      var old_ := RepetitionHidesLoss(new_, another);
    }
  }

  class Network {
    const key: Key   // name, prefix and length of the prefix
    var kind: nat    // the adapter type
    var ips: seq<InterfaceAddress>
    var active: bool
    var preference: int
    var id: nat
    var freed: bool  // deleted

    constructor (key: Key, kind: nat, ips: seq<InterfaceAddress>)
      ensures this.key == key && this.kind == kind && this.ips == ips && active && !freed
    {
      this.key := key;
      this.kind, this.ips, active, preference, id, freed := kind, ips, true, 0, 0, false;
    }

    method Delete()
      requires !freed
      modifies `freed
      ensures freed
    {
      freed := true;
    }

    method SetIPs(ips: seq<InterfaceAddress>, changed: bool) returns (r: bool)
      modifies `ips
      ensures this.ips == ips
      ensures r <==> changed || IpsDiffer(old(this.ips), ips)
    {
      r := changed || |ips| != |this.ips|;
      if !r {
        for i := 0 to |ips|
          invariant !r && forall k | 0 <= k < i :: ips[k] in this.ips
          invariant this.ips == old(this.ips)
        {
          if ips[i] !in this.ips {
            r := true;
            break;
          }
        }
      }
      this.ips := ips;
    }
  }

  // ---------------------------------------------------------------------------------------------
  // The order of the networks
  // ---------------------------------------------------------------------------------------------

  /** What networks are sorted by: the type, the precedence of their best address, the key. */
  datatype Rank = Rank(kind: nat, precedence: int, key: Key)

  /** `SortNetworks` */
  predicate RankLess(a: Rank, b: Rank) {
    if a.kind != b.kind then a.kind < b.kind
    else if a.precedence != b.precedence then a.precedence > b.precedence
    else Before(a.key, b.key)
  }

  lemma RankOrder(a: Rank, b: Rank, c: Rank)
    ensures !(RankLess(a, b) && RankLess(b, a))
    ensures a != b <==> RankLess(a, b) || RankLess(b, a)
    ensures RankLess(a, b) && RankLess(b, c) ==> RankLess(a, c)
  {
    BeforeTotal(a.key, b.key);
    BeforeTotal(b.key, b.key);
    if Before(a.key, b.key) && Before(b.key, c.key) {
      BeforeTransitive(a.key, b.key, c.key);
    }
  }

  datatype Ranked = Ranked(rank: Rank, network: Network)

  ghost predicate Sorted(s: seq<Ranked>) {
    forall i, j | 0 <= i < j < |s| :: RankLess(s[i].rank, s[j].rank)
  }

  function Insert(x: Ranked, s: seq<Ranked>): (r: seq<Ranked>)
    ensures multiset(r) == multiset(s) + multiset{x}
  {
    if s == [] then [x]
    else if RankLess(x.rank, s[0].rank) then [x] + s
    else
      assert s == [s[0]] + s[1..];
      [s[0]] + Insert(x, s[1..])
  }

  lemma {:induction false} InsertSorted(x: Ranked, s: seq<Ranked>)
    requires Sorted(s) && forall y | y in s :: y.rank != x.rank
    ensures Sorted(Insert(x, s))
    decreases |s|
  {
    if s != [] {
      RankOrder(x.rank, s[0].rank, s[0].rank);
      if RankLess(x.rank, s[0].rank) {
        forall j | 0 < j < |s| ensures RankLess(x.rank, s[j].rank) {
          RankOrder(x.rank, s[0].rank, s[j].rank);
        }
      } else {
        InsertSorted(x, s[1..]);
        var r := Insert(x, s[1..]);
        forall y | y in r ensures RankLess(s[0].rank, y.rank) {
          assert y in multiset(r);
          assert y in s[1..] || y == x;
        }
      }
    }
  }

  function Sort(s: seq<Ranked>): (r: seq<Ranked>)
    ensures multiset(r) == multiset(s)
  {
    if s == [] then []
    else
      assert s == [s[0]] + s[1..];
      Insert(s[0], Sort(s[1..]))
  }

  lemma {:induction false} SortSorted(s: seq<Ranked>)
    requires forall i, j | 0 <= i < j < |s| :: s[i].rank != s[j].rank
    ensures Sorted(Sort(s))
    decreases |s|
  {
    if s != [] {
      SortSorted(s[1..]);
      forall y | y in Sort(s[1..]) ensures y.rank != s[0].rank {
        assert y in multiset(Sort(s[1..]));
        assert y in s[1..];
      }
      InsertSorted(s[0], Sort(s[1..]));
    }
  }

  // ---------------------------------------------------------------------------------------------
  // First step: one entry for every key
  // ---------------------------------------------------------------------------------------------

  datatype Entry = Entry(network: Network, ips: seq<InterfaceAddress>)

  /** The addresses of all networks in a list that have a key. */
  function Addresses(list: seq<Network>, key: Key): seq<InterfaceAddress>
    reads (set n | n in list)`ips
  {
    if list == [] then []
    else
      var n := |list| - 1;
      Addresses(list[..n], key) + if list[n].key == key then list[n].ips else []
  }

  predicate HasKey(list: seq<Network>, key: Key) {
    exists i | 0 <= i < |list| :: list[i].key == key
  }

  /** The first network in a list with its key. */
  ghost predicate Leads(list: seq<Network>, n: Network) {
    exists i | 0 <= i < |list| :: list[i] == n && !HasKey(list[..i], n.key)
  }

  predicate HasEntry(entries: seq<Entry>, key: Key) {
    exists e | 0 <= e < |entries| :: entries[e].network.key == key
  }

  ghost predicate DistinctKeys(entries: seq<Entry>) {
    forall e, f | 0 <= e < f < |entries| :: entries[e].network.key != entries[f].network.key
  }

  ghost predicate Consolidated(list: seq<Network>, entries: seq<Entry>)
    reads (set n | n in list)`ips
  {
    && DistinctKeys(entries)
    && (forall e | 0 <= e < |entries| :: EntryOk(list, entries[e]))
    && Covers(list, entries)
  }

  ghost predicate EntryOk(list: seq<Network>, entry: Entry)
    reads (set n | n in list)`ips
  {
    Leads(list, entry.network) && entry.ips == Addresses(list, entry.network.key)
  }

  ghost predicate Covers(list: seq<Network>, entries: seq<Entry>) {
    forall n | n in list :: HasEntry(entries, n.key)
  }

  function FindEntry(entries: seq<Entry>, key: Key): (r: Option<nat>)
    ensures r.Some? ==> r.value < |entries| && entries[r.value].network.key == key
    ensures r.None? ==> !HasEntry(entries, key)
  {
    if entries == [] then None
    else
      var n := |entries| - 1;
      if entries[n].network.key == key then Some(n) else FindEntry(entries[..n], key)
  }

  lemma {:induction false} AddressesOfNone(list: seq<Network>, key: Key)
    requires !HasKey(list, key)
    ensures Addresses(list, key) == []
    decreases |list|
  {
    if list != [] {
      var n := |list| - 1;
      assert list[n].key != key;
      assert !HasKey(list[..n], key);
      AddressesOfNone(list[..n], key);
    }
  }

  lemma LeadsLonger(list: seq<Network>, i: nat, n: Network)
    requires i < |list| && Leads(list[..i], n)
    ensures Leads(list[..i + 1], n)
  {
    var k :| 0 <= k < i && list[..i][k] == n && !HasKey(list[..i][..k], n.key);
    assert list[..i + 1][k] == n && list[..i + 1][..k] == list[..i][..k];
  }

  lemma AddressesLonger(list: seq<Network>, i: nat, key: Key)
    requires i < |list|
    ensures Addresses(list[..i + 1], key) ==
      Addresses(list[..i], key) + if list[i].key == key then list[i].ips else []
  {
    assert list[..i + 1][..i] == list[..i];
  }

  /** The next network is the first with its key. */
  lemma ConsolidateNew(list: seq<Network>, i: nat, entries: seq<Entry>)
    requires i < |list| && Consolidated(list[..i], entries) && !HasEntry(entries, list[i].key)
    ensures Consolidated(list[..i + 1], entries + [Entry(list[i], list[i].ips)])
  {
    var n := list[i];
    var more := entries + [Entry(n, n.ips)];
    NotCovered(list[..i], entries, n.key);
    NewLeader(list, i);
    forall e | 0 <= e < |more| ensures EntryOk(list[..i + 1], more[e]) {
      if e < |entries| {
        assert EntryOk(list[..i], entries[e]) && entries[e].network.key != n.key;
        EntryLonger(list, i, entries[e]);
      }
    }
    forall k | HasEntry(entries, k) ensures HasEntry(more, k) {
      var e :| 0 <= e < |entries| && entries[e].network.key == k;
      assert more[e] == entries[e];
    }
    assert more[|entries|].network.key == n.key;
    CoversMore(list, i, entries, more);
  }

  lemma NewLeader(list: seq<Network>, i: nat)
    requires i < |list| && !HasKey(list[..i], list[i].key)
    ensures EntryOk(list[..i + 1], Entry(list[i], list[i].ips))
  {
    AddressesOfNone(list[..i], list[i].key);
    AddressesLonger(list, i, list[i].key);
    assert list[..i + 1][i] == list[i] && list[..i + 1][..i] == list[..i];
  }

  lemma EntryLonger(list: seq<Network>, i: nat, entry: Entry)
    requires i < |list| && EntryOk(list[..i], entry) && entry.network.key != list[i].key
    ensures EntryOk(list[..i + 1], entry)
  {
    LeadsLonger(list, i, entry.network);
    AddressesLonger(list, i, entry.network.key);
  }

  lemma NotCovered(list: seq<Network>, entries: seq<Entry>, key: Key)
    requires Covers(list, entries) && !HasEntry(entries, key)
    ensures !HasKey(list, key)
  {
    forall k | 0 <= k < |list| ensures list[k].key != key {
      assert list[k] in list;
    }
  }

  lemma CoversMore(list: seq<Network>, i: nat, entries: seq<Entry>, more: seq<Entry>)
    requires i < |list| && Covers(list[..i], entries) && HasEntry(more, list[i].key)
    requires forall k | HasEntry(entries, k) :: HasEntry(more, k)
    ensures Covers(list[..i + 1], more)
  {
    forall n | n in list[..i + 1] ensures HasEntry(more, n.key) {
      assert n == list[i] || n in list[..i];
    }
  }

  /** The next network joins an entry. */
  lemma JoinedOk(list: seq<Network>, i: nat, entry: Entry)
    requires i < |list| && EntryOk(list[..i], entry) && entry.network.key == list[i].key
    ensures EntryOk(list[..i + 1], entry.(ips := entry.ips + list[i].ips))
  {
    LeadsLonger(list, i, entry.network);
    AddressesLonger(list, i, entry.network.key);
  }

  lemma ConsolidateMore(list: seq<Network>, i: nat, entries: seq<Entry>, e: nat)
    requires i < |list| && Consolidated(list[..i], entries)
    requires e < |entries| && entries[e].network.key == list[i].key
    ensures Consolidated(list[..i + 1], entries[e := entries[e].(ips := entries[e].ips + list[i].ips)])
  {
    var n := list[i];
    var joined := entries[e].(ips := entries[e].ips + n.ips);
    var more := entries[e := joined];
    JoinedOk(list, i, entries[e]);
    hide EntryOk;
    forall f | 0 <= f < |more| ensures EntryOk(list[..i + 1], more[f]) {
      if f != e {
        assert EntryOk(list[..i], entries[f]) && entries[f].network.key != n.key;
        EntryLonger(list, i, entries[f]);
      }
    }
    forall k | HasEntry(entries, k) ensures HasEntry(more, k) {
      var f :| 0 <= f < |entries| && entries[f].network.key == k;
      assert more[f].network == entries[f].network;
    }
    assert more[e].network.key == n.key;
    CoversMore(list, i, entries, more);
  }

  ghost function FoundOf(entries: seq<Entry>): (found: seq<Found>)
    reads set e | e in entries :: e.network
    ensures |found| == |entries|
    ensures forall e | 0 <= e < |entries| ::
      found[e] == Found(entries[e].network, entries[e].network.kind, entries[e].ips)
  {
    if entries == [] then []
    else
      var n := |entries| - 1;
      var entry := entries[n];
      FoundOf(entries[..n]) + [Found(entry.network, entry.network.kind, entry.ips)]
  }

  /** The network that stands for a key. */
  ghost function Leader(list: seq<Network>, key: Key): (n: Network)
    requires HasKey(list, key)
    ensures n in list && n.key == key
  {
    var n := |list| - 1;
    if HasKey(list[..n], key) then Leader(list[..n], key) else list[n]
  }

  lemma {:induction false} LeaderLeads(list: seq<Network>, n: Network)
    requires Leads(list, n)
    ensures HasKey(list, n.key) && Leader(list, n.key) == n
    decreases |list|
  {
    var i :| 0 <= i < |list| && list[i] == n && !HasKey(list[..i], n.key);
    var m := |list| - 1;
    if i < m {
      assert list[..m][i] == n && list[..m][..i] == list[..i];
      LeaderLeads(list[..m], n);
    }
  }

  /** Of the first `i` networks those that do not lead are deleted; none of the others is. */
  ghost predicate FreedUpTo(list: seq<Network>, i: nat)
    requires i <= |list|
    reads (set n | n in list)`freed
  {
    && (forall k | 0 <= k < i :: list[k].freed <==> !Leads(list, list[k]))
    && (forall k | i <= k < |list| :: !list[k].freed)
  }

  method Consolidate(list: seq<Network>) returns (entries: seq<Entry>)
    requires NoDuplicates(list) && forall n | n in list :: !n.freed
    modifies (set n | n in list)`freed
    ensures Consolidated(list, entries)
    ensures forall n | n in list :: n.freed <==> !Leads(list, n)
  {
    entries := [];
    for i := 0 to |list|
      invariant Consolidated(list[..i], entries) && FreedUpTo(list, i)
    {
      entries := ConsolidateNext(list, i, entries);
    }
    assert list[..|list|] == list;
  }

  method ConsolidateNext(list: seq<Network>, i: nat, entries: seq<Entry>) returns (more: seq<Entry>)
    requires NoDuplicates(list) && i < |list| && Consolidated(list[..i], entries) && FreedUpTo(list, i)
    modifies {list[i]}`freed
    ensures Consolidated(list[..i + 1], more) && FreedUpTo(list, i + 1)
  {
    match FindEntry(entries, list[i].key) {
      case None => more := StartEntry(list, i, entries);
      case Some(e) => more := JoinEntry(list, i, entries, e);
    }
  }

  method StartEntry(list: seq<Network>, i: nat, entries: seq<Entry>) returns (more: seq<Entry>)
    requires i < |list| && Consolidated(list[..i], entries) && FreedUpTo(list, i)
    requires !HasEntry(entries, list[i].key)
    ensures Consolidated(list[..i + 1], more) && FreedUpTo(list, i + 1)
  {
    ConsolidateNew(list, i, entries);
    FirstLeads(list, i, entries);
    more := entries + [Entry(list[i], list[i].ips)];
  }

  method JoinEntry(list: seq<Network>, i: nat, entries: seq<Entry>, e: nat) returns (more: seq<Entry>)
    requires NoDuplicates(list) && i < |list| && Consolidated(list[..i], entries) && FreedUpTo(list, i)
    requires e < |entries| && entries[e].network.key == list[i].key
    modifies {list[i]}`freed
    ensures Consolidated(list[..i + 1], more) && FreedUpTo(list, i + 1)
  {
    FreeFollower(list, i, entries, e);
    ConsolidateMore(list, i, entries, e);
    more := entries[e := entries[e].(ips := entries[e].ips + list[i].ips)];
  }

  method FreeFollower(list: seq<Network>, i: nat, ghost entries: seq<Entry>, ghost e: nat)
    requires NoDuplicates(list) && i < |list| && FreedUpTo(list, i)
    requires e < |entries| && entries[e].network.key == list[i].key && Leads(list[..i], entries[e].network)
    modifies {list[i]}`freed
    ensures FreedUpTo(list, i + 1)
  {
    NotFirst(list, i, entries[e].network);
    list[i].Delete();
  }

  lemma FirstLeads(list: seq<Network>, i: nat, entries: seq<Entry>)
    requires i < |list| && !HasEntry(entries, list[i].key)
    requires Covers(list[..i], entries)
    ensures Leads(list, list[i])
  {
    NotCovered(list[..i], entries, list[i].key);
  }

  lemma NotFirst(list: seq<Network>, i: nat, first: Network)
    requires NoDuplicates(list) && i < |list| && Leads(list[..i], first) && first.key == list[i].key
    ensures !Leads(list, list[i])
  {
    var k :| 0 <= k < i && list[..i][k] == first;
    forall j | 0 <= j < |list| && list[j] == list[i] ensures HasKey(list[..j], list[i].key) {
      assert list[..j][k].key == list[i].key;
    }
  }

  // ---------------------------------------------------------------------------------------------
  // Second step: into the map
  // ---------------------------------------------------------------------------------------------

  /** What is known of a network, and what an enumeration has found of one. */
  datatype Known = Known(network: Network, kind: nat, ips: seq<InterfaceAddress>, active: bool, id: nat)
  datatype Found = Found(network: Network, kind: nat, ips: seq<InterfaceAddress>)

  datatype Book = Book(known: map<Key, Known>, nextId: nat)

  function NewKind(known: nat, found: nat): nat { if found != UNKNOWN then found else known }

  /** A network that is known keeps its object and its identifier. */
  function Updated(book: Book, f: Found): Known {
    if f.network.key in book.known then
      var known := book.known[f.network.key];
      known.(kind := NewKind(known.kind, f.kind), ips := f.ips)
    else Known(f.network, f.kind, f.ips, true, book.nextId)
  }

  function Note(book: Book, f: Found): Book {
    Book(book.known[f.network.key := Updated(book, f)],
         if f.network.key in book.known then book.nextId else (book.nextId + 1) % 0x1_0000)
  }

  lemma NotedWith(book: Book, net: Network, kind: nat, before: seq<InterfaceAddress>, ips: seq<InterfaceAddress>)
    requires net.key !in book.known
    ensures var noted, key := Note(book, Found(net, kind, before)), net.key;
      && key in noted.known
      && noted.(known := noted.known[key := noted.known[key].(ips := ips)]) == Note(book, Found(net, kind, ips))
  {
  }

  function NoteAll(book: Book, found: seq<Found>): Book {
    if found == [] then book
    else
      var n := |found| - 1;
      Note(NoteAll(book, found[..n]), found[n])
  }

  predicate IsFound(found: seq<Found>, key: Key) {
    exists e | 0 <= e < |found| :: found[e].network.key == key
  }

  ghost predicate DistinctFound(found: seq<Found>) {
    forall e, f | 0 <= e < f < |found| :: found[e].network.key != found[f].network.key
  }

  /** Something new is found: the network itself, its activity, its addresses or its type. */
  ghost predicate IsNews(known: map<Key, Known>, f: Found) {
    f.network.key !in known ||
      var k := known[f.network.key];
      !k.active || IpsDiffer(k.ips, f.ips) || NewKind(k.kind, f.kind) != k.kind
  }

  /** Every network is noted by its own entry, and by no other. */
  lemma {:induction false} NoteAllAt(book: Book, found: seq<Found>, key: Key)
    requires DistinctFound(found)
    ensures var known := NoteAll(book, found).known;
      && (key in known <==> key in book.known || IsFound(found, key))
      && (key in book.known && !IsFound(found, key) ==> known[key] == book.known[key])
      && (key in book.known && key in known ==>
           known[key].network == book.known[key].network && known[key].id == book.known[key].id
           && known[key].active == book.known[key].active)
    decreases |found|
  {
    if found != [] {
      var n := |found| - 1;
      assert IsFound(found, key) <==> IsFound(found[..n], key) || found[n].network.key == key by {
        if IsFound(found[..n], key) {
          var e :| 0 <= e < n && found[..n][e].network.key == key;
          assert found[e].network.key == key;
        }
        if e :| 0 <= e < n && found[e].network.key == key {
          assert found[..n][e].network.key == key;
        }
      }
      NoteAllAt(book, found[..n], key);
    }
  }

  lemma NoteAllKeeps(book: Book, found: seq<Found>)
    requires DistinctFound(found)
    ensures var known := NoteAll(book, found).known;
      && (forall k :: k in known <==> k in book.known || IsFound(found, k))
      && forall k | k in book.known :: known[k].network == book.known[k].network && known[k].active == book.known[k].active
  {
    forall k
      ensures var known := NoteAll(book, found).known;
        && (k in known <==> k in book.known || IsFound(found, k))
        && (k in book.known ==> known[k].network == book.known[k].network && known[k].active == book.known[k].active)
    {
      NoteAllAt(book, found, k);
    }
  }

  lemma {:induction false} NoteAllOf(book: Book, found: seq<Found>, e: nat)
    requires DistinctFound(found) && e < |found|
    ensures var known, f := NoteAll(book, found).known, found[e];
      && f.network.key in known && known[f.network.key].ips == f.ips
      && (f.network.key in book.known ==>
           known[f.network.key].kind == NewKind(book.known[f.network.key].kind, f.kind))
      && (f.network.key !in book.known ==>
           known[f.network.key].network == f.network && known[f.network.key].kind == f.kind && known[f.network.key].active)
    decreases |found|
  {
    var n := |found| - 1;
    if e < n {
      NoteAllOf(book, found[..n], e);
    } else {
      NoteAllBefore(book, found, n);
    }
  }

  /** Until its turn comes, a network is as it was. */
  lemma NoteAllBefore(book: Book, found: seq<Found>, n: nat)
    requires DistinctFound(found) && n < |found|
    ensures var known, key := NoteAll(book, found[..n]).known, found[n].network.key;
      && (key in known <==> key in book.known)
      && (key in known ==> known[key] == book.known[key])
  {
    var key := found[n].network.key;
    NoteAllAt(book, found[..n], key);
  }

  ghost function KnownOf(n: Network): Known
    reads n`kind, n`ips, n`active, n`id
  {
    Known(n, n.kind, n.ips, n.active, n.id)
  }

  function FoundKeys(found: seq<Found>): (keys: seq<Key>)
    ensures |keys| == |found|
    ensures forall k :: k in keys <==> IsFound(found, k)
  {
    var keys := seq(|found|, e requires 0 <= e < |found| => found[e].network.key);
    assert forall e | 0 <= e < |found| :: keys[e] == found[e].network.key;
    keys
  }

  function NetworkKeys(networks: seq<Network>): (keys: seq<Key>)
    ensures |keys| == |networks| && forall i | 0 <= i < |networks| :: keys[i] == networks[i].key
    ensures forall k :: k in keys <==> HasKey(networks, k)
  {
    var keys := seq(|networks|, i requires 0 <= i < |networks| => networks[i].key);
    assert forall i | 0 <= i < |networks| :: keys[i] == networks[i].key;
    keys
  }

  /** A known network has other addresses now, or another type. */
  ghost predicate Altered(known: map<Key, Known>, f: Found) {
    f.network.key in known &&
    var k := known[f.network.key];
    IpsDiffer(k.ips, f.ips) || NewKind(k.kind, f.kind) != k.kind
  }

  /** Other networks were found than those that are active, or they have changed. */
  ghost predicate Changes(known: map<Key, Known>, found: seq<Found>) {
    || (exists k :: (k in known && known[k].active) != IsFound(found, k))
    || (exists e | 0 <= e < |found| :: Altered(known, found[e]))
  }

  ghost predicate ActiveIfFound(known: map<Key, Known>, found: seq<Found>) {
    forall k | k in known :: known[k].active <==> IsFound(found, k)
  }

  /** Looking for news and comparing the sizes finds every change, and only changes. */
  lemma ChangeIsDetected(known: map<Key, Known>, networks: seq<Network>, found: seq<Found>)
    requires NoDuplicates(NetworkKeys(networks)) && DistinctFound(found)
    requires forall k :: k in known && known[k].active <==> HasKey(networks, k)
    ensures (exists e | 0 <= e < |found| :: IsNews(known, found[e])) || |found| != |networks| <==> Changes(known, found)
  {
    var a, b := FoundKeys(found), NetworkKeys(networks);
    assert NoDuplicates(a);
    if e :| 0 <= e < |found| && IsNews(known, found[e]) && !Altered(known, found[e]) {
      assert IsFound(found, found[e].network.key) && !HasKey(networks, found[e].network.key);
    } else if forall e | 0 <= e < |found| :: !IsNews(known, found[e]) {
      forall k | k in a ensures k in b {
        var e :| 0 <= e < |found| && found[e].network.key == k;
        assert !IsNews(known, found[e]);
      }
      Pigeonhole(a, b);
      if |a| != |b| && forall k | k in b :: k in a {
        Pigeonhole(b, a);
      }
    }
  }

  /** The networks are as noted, whichever of them are active. */
  ghost predicate AsNoted(book: Book, noted: Book) {
    && book.known.Keys == noted.known.Keys
    && forall k | k in noted.known ::
      book.known[k].(active := true) == noted.known[k].(active := true)
  }

  /** Something about a network that its user notices. */
  ghost predicate Noticed(before: map<Key, Known>, after: map<Key, Known>, k: Key)
    requires k in after
  {
    || (k in before && before[k].active) != after[k].active
    || (k in before && (after[k].kind != before[k].kind || IpsDiffer(before[k].ips, after[k].ips)))
  }

  /** What a merge of `findings` makes of the networks that were known. */
  ghost predicate MergeLaw(before: map<Key, Known>, findings: map<Key, Found>, after: map<Key, Known>, changed: bool) {
    // A network keeps its object and its identifier for ever; there is one for everything ever found.
    && after.Keys == before.Keys + findings.Keys
    && (forall k | k in before :: after[k].network == before[k].network && after[k].id == before[k].id)
    && (forall k | k in findings && k !in before :: after[k].network == findings[k].network)
    // Active are those that were found now.
    && (forall k | k in after :: after[k].active <==> k in findings)
    // They have the addresses that were found, and the type, if that is known.
    && (forall k | k in findings ::
         && after[k].ips == findings[k].ips
         && after[k].kind == if k in before && findings[k].kind == 0 then before[k].kind else findings[k].kind)
    && (forall k | k in before && k !in findings :: after[k].ips == before[k].ips && after[k].kind == before[k].kind)
    // A change is reported exactly when there is one.
    && (changed <==> exists k | k in after :: Noticed(before, after, k))
  }

  ghost predicate Matches(found: seq<Found>, findings: map<Key, Found>) {
    && (forall e | 0 <= e < |found| :: found[e].network.key in findings && findings[found[e].network.key] == found[e])
    && (forall k | k in findings :: IsFound(found, k))
  }

  lemma LawOfNotes(before: Book, found: seq<Found>, findings: map<Key, Found>, after: Book, changed: bool)
    requires DistinctFound(found) && Matches(found, findings)
    requires AsNoted(after, NoteAll(before, found))
    requires ActiveIfFound(after.known, found)
    requires changed <==> Changes(before.known, found)
    ensures MergeLaw(before.known, findings, after.known, changed)
  {
    NoteAllKeeps(before, found);
    assert forall k :: k in findings <==> IsFound(found, k);
    forall k | k in before.known ensures Kept(before.known, found, after.known, k) {
      KeptByNotes(before, found, after, k);
    }
    AllTaken(before, found, findings, after);
    ChangesNoticed(before.known, found, findings, after.known);
  }

  lemma AllTaken(before: Book, found: seq<Found>, findings: map<Key, Found>, after: Book)
    requires DistinctFound(found) && Matches(found, findings) && AsNoted(after, NoteAll(before, found))
    ensures forall e | 0 <= e < |found| :: TakenOver(before.known, found[e], after.known)
    ensures forall k | k in findings :: TakenOver(before.known, findings[k], after.known)
  {
    hide TakenOver, NoteAll, AsNoted, DistinctFound;
    forall e | 0 <= e < |found| ensures TakenOver(before.known, found[e], after.known) {
      TakenByNotes(before, found, after, e);
    }
    forall k | k in findings ensures TakenOver(before.known, findings[k], after.known) {
      assert IsFound(found, k);
      var e :| 0 <= e < |found| && found[e].network.key == k;
      assert findings[k] == found[e];
    }
  }

  ghost predicate Kept(before: map<Key, Known>, found: seq<Found>, after: map<Key, Known>, k: Key)
    requires k in before
  {
    && k in after && after[k].network == before[k].network && after[k].id == before[k].id
    && (!IsFound(found, k) ==> after[k].ips == before[k].ips && after[k].kind == before[k].kind)
  }

  lemma KeptByNotes(before: Book, found: seq<Found>, after: Book, k: Key)
    requires DistinctFound(found) && AsNoted(after, NoteAll(before, found)) && k in before.known
    ensures Kept(before.known, found, after.known, k)
  {
    NoteAllAt(before, found, k);
    assert after.known[k].(active := true) == NoteAll(before, found).known[k].(active := true);
  }

  lemma TakenByNotes(before: Book, found: seq<Found>, after: Book, e: nat)
    requires DistinctFound(found) && AsNoted(after, NoteAll(before, found)) && e < |found|
    ensures TakenOver(before.known, found[e], after.known)
  {
    NoteAllOf(before, found, e);
    var k := found[e].network.key;
    assert after.known[k].(active := true) == NoteAll(before, found).known[k].(active := true);
  }

  ghost predicate TakenOver(before: map<Key, Known>, f: Found, after: map<Key, Known>) {
    var k := f.network.key;
    && k in after && after[k].ips == f.ips
    && after[k].kind == (if k in before then NewKind(before[k].kind, f.kind) else f.kind)
    && (k !in before ==> after[k].network == f.network)
  }

  lemma ChangesNoticed(before: map<Key, Known>, found: seq<Found>, findings: map<Key, Found>, after: map<Key, Known>)
    requires Matches(found, findings) && after.Keys == before.Keys + findings.Keys
    requires ActiveIfFound(after, found)
    requires forall e | 0 <= e < |found| :: TakenOver(before, found[e], after)
    requires forall k | k in before && k !in findings :: after[k].ips == before[k].ips && after[k].kind == before[k].kind
    ensures (exists k | k in after :: Noticed(before, after, k)) <==> Changes(before, found)
  {
    forall e | 0 <= e < |found| && Altered(before, found[e]) ensures Noticed(before, after, found[e].network.key) {
      assert TakenOver(before, found[e], after);
    }
    forall k | k in after && Noticed(before, after, k) && (k in before && before[k].active) == IsFound(found, k)
      ensures exists e | 0 <= e < |found| :: Altered(before, found[e])
    {
      assert k in findings;
      var e :| 0 <= e < |found| && found[e].network.key == k;
      assert TakenOver(before, found[e], after);
      assert Altered(before, found[e]);
    }
    forall k | (k in before && before[k].active) != IsFound(found, k) ensures k in after && Noticed(before, after, k) {
      if IsFound(found, k) {
        var e :| 0 <= e < |found| && found[e].network.key == k;
      }
    }
  }

  /** `existing` takes over what was found, in `net`, which is deleted if it is another object. */
  method Refresh(existing: Network, net: Network, ips: seq<InterfaceAddress>, changed: bool) returns (r: bool)
    requires !net.freed
    modifies existing`ips, existing`kind, net`freed
    ensures KnownOf(existing) ==
      old(KnownOf(existing)).(kind := NewKind(old(existing.kind), old(net.kind)), ips := ips)
    ensures r <==> changed || !existing.active || IpsDiffer(old(existing.ips), ips) || existing.kind != old(existing.kind)
    ensures net.freed <==> net != existing
  {
    r := existing.SetIPs(ips, changed);
    if net.kind != UNKNOWN && net.kind != existing.kind {
      existing.kind := net.kind;
      r := true;
    }
    if !existing.active {
      r := true;
    }
    if existing != net {
      net.Delete();
    }
  }

  /** After a merge that reports no change the same networks are active, with the same types and, where
      the list repeats none, the same addresses. */
  lemma UnreportedMerge(before: map<Key, Known>, findings: map<Key, Found>, after: map<Key, Known>, k: Key)
    requires MergeLaw(before, findings, after, false)
    ensures k in after && after[k].active <==> k in before && before[k].active
    ensures k in before ==> k in after && after[k].kind == before[k].kind
    ensures k in before && NoDuplicates(after[k].ips) ==> Elements(after[k].ips) == Elements(before[k].ips)
  {
    if k in after {
      assert !Noticed(before, after, k);
      if k in before && NoDuplicates(after[k].ips) {
        UnreportedMeansSame(before[k].ips, after[k].ips);
      }
    }
  }

  /** What a list says of every network in it. */
  ghost function Findings(list: seq<Network>): map<Key, Found>
    reads (set n | n in list)`kind, (set n | n in list)`ips
  {
    map k | k in NetworkKeys(list) :: var n := Leader(list, k); Found(n, n.kind, Addresses(list, k))
  }

  lemma FindingsMatch(list: seq<Network>, entries: seq<Entry>)
    requires Consolidated(list, entries)
    ensures DistinctFound(FoundOf(entries)) && Matches(FoundOf(entries), Findings(list))
  {
    var found := FoundOf(entries);
    forall e | 0 <= e < |found|
      ensures found[e].network.key in Findings(list) && Findings(list)[found[e].network.key] == found[e]
    {
      LeaderLeads(list, entries[e].network);
    }
    forall k | k in Findings(list) ensures IsFound(found, k) {
      var i :| 0 <= i < |list| && list[i].key == k;
      assert HasEntry(entries, k);
      var e :| 0 <= e < |entries| && entries[e].network.key == k;
      assert found[e].network.key == k;
    }
  }

  class Manager {
    /** The precedence of the best address of a network. */
    const precedence: (Key, seq<InterfaceAddress>) -> int
    var networks: seq<Network>
    var networksMap: map<Key, Network>
    var nextId: nat

    constructor (precedence: (Key, seq<InterfaceAddress>) -> int)
      ensures Valid() && networksMap == map[] && networks == []
    {
      this.precedence := precedence;
      networks, networksMap, nextId := [], map[], 1;
    }

    ghost function Managed(): set<Network>
      reads `networksMap
    {
      set k | k in networksMap :: networksMap[k]
    }

    ghost predicate MapOk()
      reads `networksMap, Managed()`freed
    {
      forall k | k in networksMap :: networksMap[k].key == k && !networksMap[k].freed
    }

    ghost function TheBook(): Book
      reads `networksMap, `nextId, Managed()`kind, Managed()`ips, Managed()`active, Managed()`id
    {
      Book(map k | k in networksMap :: KnownOf(networksMap[k]), nextId)
    }

    ghost function Targets(n: Network): set<Network>
      reads `networksMap
    {
      {n} + if n.key in networksMap then {networksMap[n.key]} else {}
    }

    /** This network is new. */
    method AddNew(entry: Entry)
      requires MapOk() && !entry.network.freed && entry.network.active && entry.network.key !in networksMap
      modifies `networksMap, `nextId, entry.network`id, entry.network`ips
      ensures MapOk() && networksMap == old(networksMap)[entry.network.key := entry.network]
      ensures TheBook() == Note(old(TheBook()), Found(entry.network, entry.network.kind, entry.ips))
    {
      hide Note;
      Enroll(entry.network);
      ghost var known := TheBook().known;
      var _ := entry.network.SetIPs(entry.ips, true);
      forall k | k in networksMap && k != entry.network.key ensures KnownOf(networksMap[k]) == known[k] {
        assert networksMap[k].key == k;
      }
      OneChanged(known, entry.network.key, known[entry.network.key].(ips := entry.ips));
      NotedWith(old(TheBook()), entry.network, entry.network.kind, old(entry.network.ips), entry.ips);
    }

    method Enroll(net: Network)
      requires MapOk() && !net.freed && net.active && net.key !in networksMap
      modifies `networksMap, `nextId, net`id
      ensures MapOk() && networksMap == old(networksMap)[net.key := net]
      ensures TheBook() == Note(old(TheBook()), Found(net, net.kind, net.ips))
    {
      networksMap := networksMap[net.key := net];
      net.id := nextId;
      nextId := (nextId + 1) % 0x1_0000;
      OneChanged(old(TheBook()).known, net.key, KnownOf(net));
    }

    /** The book differs from an earlier one in one network. */
    lemma OneChanged(known: map<Key, Known>, key: Key, changed: Known)
      requires key in networksMap && KnownOf(networksMap[key]) == changed
      requires networksMap.Keys == known.Keys + {key}
      requires forall k | k in networksMap && k != key :: KnownOf(networksMap[k]) == known[k]
      ensures TheBook().known == known[key := changed]
    {
    }

    /** This network exists in the map already. */
    method UpdateExisting(entry: Entry, changed: bool) returns (r: bool)
      requires MapOk() && !entry.network.freed && entry.network.key in networksMap
      modifies {networksMap[entry.network.key]}`ips, {networksMap[entry.network.key]}`kind, entry.network`freed
      ensures MapOk()
      ensures var found := Found(entry.network, old(entry.network.kind), entry.ips);
        && TheBook() == Note(old(TheBook()), found)
        && (r <==> changed || IsNews(old(TheBook()).known, found))
      ensures entry.network.freed <==> entry.network != networksMap[entry.network.key]
    {
      var existing := networksMap[entry.network.key];
      r := Refresh(existing, entry.network, entry.ips, changed);
      forall k | k in networksMap && k != existing.key
        ensures TheBook().known[k] == old(TheBook()).known[k]
      {
        assert networksMap[k].key == k;
      }
    }

    method MergeOne(entry: Entry, changed: bool) returns (network: Network, r: bool)
      requires MapOk() && !entry.network.freed && entry.network.active
      modifies `networksMap, `nextId
      modifies Targets(entry.network)`ips, Targets(entry.network)`kind
      modifies Targets(entry.network)`id, Targets(entry.network)`freed
      ensures MapOk()
      ensures var found := Found(entry.network, old(entry.network.kind), entry.ips);
        && TheBook() == Note(old(TheBook()), found)
        && (r <==> changed || IsNews(old(TheBook()).known, found))
      ensures networksMap == old(networksMap)[entry.network.key := network]
      ensures entry.network.freed <==> entry.network != network
      ensures network in old(Managed()) + {entry.network}
    {
      if entry.network.key !in networksMap {
        AddNew(entry);
        r := true;
      } else {
        r := UpdateExisting(entry, changed);
      }
      network := networksMap[entry.network.key];
    }

    ghost function Reach(entries: seq<Entry>): set<Network>
      reads `networksMap
    {
      Managed() + set e | e in entries :: e.network
    }

    ghost predicate Awaits(entry: Entry, f: Found)
      reads entry.network
    {
      f == Found(entry.network, entry.network.kind, entry.ips) && !entry.network.freed && entry.network.active
    }

    ghost predicate Placed(entry: Entry, network: Network)
      reads `networksMap, entry.network`freed
    {
      && entry.network.key in networksMap && network == networksMap[entry.network.key]
      && (entry.network.freed <==> entry.network != network)
    }

    /** Entry `n` leaves those before it in their places and those behind it waiting. */
    method MergeNext(entries: seq<Entry>, ghost found: seq<Found>, n: nat, merged: seq<Network>, changed: bool)
      returns (all: seq<Network>, r: bool)
      requires MapOk() && n < |entries| == |found| && DistinctFound(found) && |merged| == n
      requires forall e | 0 <= e < n :: found[e].network == entries[e].network && Placed(entries[e], merged[e])
      requires forall e | n <= e < |entries| :: Awaits(entries[e], found[e])
      modifies `networksMap, `nextId
      modifies Targets(entries[n].network)`ips, Targets(entries[n].network)`kind
      modifies Targets(entries[n].network)`id, Targets(entries[n].network)`freed
      ensures MapOk() && TheBook() == Note(old(TheBook()), found[n])
      ensures |all| == n + 1 && forall e | 0 <= e < n + 1 :: Placed(entries[e], all[e])
      ensures Managed() <= old(Managed()) + {entries[n].network}
      ensures forall e | n < e < |entries| :: Awaits(entries[e], found[e])
      ensures r <==> changed || IsNews(old(TheBook()).known, found[n])
    {
      var network;
      network, r := MergeOne(entries[n], changed);
      forall e | 0 <= e < |entries| && e != n ensures entries[e].network !in old(Targets(entries[n].network)) {
        assert found[e].network.key != found[n].network.key;
      }
      all := merged + [network];
      forall e | 0 <= e < n ensures Placed(entries[e], all[e]) {
        assert all[e] == merged[e];
      }
    }

    /** The first `n` entries have been merged. */
    ghost predicate MergedSoFar(entries: seq<Entry>, found: seq<Found>, n: nat, merged: seq<Network>, changed: bool, book: Book)
      requires n <= |entries| == |found|
      reads this, Managed(), set e | e in entries :: e.network
    {
      && MapOk() && DistinctFound(found) && TheBook() == NoteAll(book, found[..n])
      && |merged| == n && (forall e | 0 <= e < n :: found[e].network == entries[e].network && Placed(entries[e], merged[e]))
      && (forall e | n <= e < |entries| :: Awaits(entries[e], found[e]))
      && (changed <==> exists e | 0 <= e < n :: IsNews(book.known, found[e]))
    }

    method MergeStep(entries: seq<Entry>, ghost found: seq<Found>, n: nat, merged: seq<Network>, changed: bool, ghost book: Book)
      returns (all: seq<Network>, r: bool)
      requires n < |entries| == |found| && MergedSoFar(entries, found, n, merged, changed, book)
      modifies `networksMap, `nextId
      modifies Targets(entries[n].network)`ips, Targets(entries[n].network)`kind
      modifies Targets(entries[n].network)`id, Targets(entries[n].network)`freed
      ensures MergedSoFar(entries, found, n + 1, all, r, book)
      ensures Managed() <= old(Managed()) + {entries[n].network}
    {
      hide Manager.MapOk, Manager.TheBook, DistinctFound;
      NoteAllBefore(book, found, n);
      assert found[..n + 1][..n] == found[..n];
      all, r := MergeNext(entries, found, n, merged, changed);
    }

    method MergeAll(entries: seq<Entry>, ghost found: seq<Found>) returns (merged: seq<Network>, changed: bool)
      requires MapOk() && |found| == |entries| && DistinctFound(found)
      requires forall e | 0 <= e < |entries| :: Awaits(entries[e], found[e])
      modifies `networksMap, `nextId
      modifies Reach(entries)`ips, Reach(entries)`kind, Reach(entries)`id, Reach(entries)`freed
      ensures MapOk() && TheBook() == NoteAll(old(TheBook()), found)
      ensures |merged| == |entries| && forall e | 0 <= e < |entries| :: Placed(entries[e], merged[e])
      ensures changed <==> exists e | 0 <= e < |entries| :: IsNews(old(TheBook()).known, found[e])
      ensures Managed() <= old(Reach(entries))
    {
      merged, changed := [], false;
      ghost var book := TheBook();
      for n := 0 to |entries|
        invariant MergedSoFar(entries, found, n, merged, changed, book)
        invariant Managed() <= old(Reach(entries))
      {
        merged, changed := MergeStep(entries, found, n, merged, changed, book);
      }
      assert found[..|entries|] == found;
    }

    // -------------------------------------------------------------------------------------------
    // Third step: the list of networks
    // -------------------------------------------------------------------------------------------

    /** A list of managed networks, none of them twice. */
    ghost predicate ListOk(list: seq<Network>)
      reads `networksMap
    {
      NoDuplicates(list) && forall n | n in list :: n.key in networksMap && networksMap[n.key] == n
    }

    ghost predicate Valid()
      reads this, Managed()
    {
      && MapOk() && ListOk(networks)
      && forall k | k in networksMap :: networksMap[k].active <==> networksMap[k] in networks
    }

    function RankOf(n: Network): Rank
      reads n
    {
      Rank(n.kind, precedence(n.key, n.ips), n.key)
    }

    /** In the order of `SortNetworks`. */
    ghost predicate Ordered(list: seq<Network>)
      reads list
    {
      forall i, j | 0 <= i < j < |list| :: RankLess(RankOf(list[i]), RankOf(list[j]))
    }

    ghost predicate InOrder()
      reads this, networks
    {
      Ordered(networks)
    }

    method RankAll(list: seq<Network>) returns (ranked: seq<Ranked>)
      ensures |ranked| == |list|
      ensures forall k | 0 <= k < |list| :: ranked[k] == Ranked(RankOf(list[k]), list[k])
    {
      ranked := [];
      for i := 0 to |list|
        invariant |ranked| == i
        invariant forall k | 0 <= k < i :: ranked[k] == Ranked(RankOf(list[k]), list[k])
      {
        ranked := ranked + [Ranked(RankOf(list[i]), list[i])];
      }
    }

    method Sorted(list: seq<Network>) returns (r: seq<Network>)
      requires forall i, j | 0 <= i < j < |list| :: list[i].key != list[j].key
      ensures Ordered(r) && |r| == |list| && forall n :: n in r <==> n in list
    {
      var ranked := RankAll(list);
      SortSorted(ranked);
      var sorted := Sort(ranked);
      SameElements(ranked, sorted);
      SameNetworks(list, ranked, sorted);
      r := Strip(sorted);
      forall i | 0 <= i < |sorted| ensures sorted[i].rank == RankOf(r[i]) {
        assert sorted[i] in ranked;
      }
    }

    method SortNetworkList()
      requires ListOk(networks)
      modifies `networks
      ensures InOrder() && |networks| == |old(networks)| && TheBook() == old(TheBook())
      ensures forall n :: n in networks <==> n in old(networks)
    {
      forall i, j | 0 <= i < j < |networks| ensures networks[i].key != networks[j].key {
        assert networks[i] != networks[j];
      }
      networks := Sorted(networks);
    }

    /** From 127 downwards, as long as there are numbers. */
    ghost predicate Preferred(n: nat)
      requires n <= |networks|
      reads this, networks
    {
      forall i | 0 <= i < n && i < 128 :: networks[i].preference == 127 - i
    }

    method AssignPreferences()
      requires NoDuplicates(networks)
      modifies (set n | n in networks)`preference
      ensures Preferred(|networks|) && TheBook() == old(TheBook())
    {
      var pref := 127;
      for i := 0 to |networks|
        invariant i <= 128 && pref == 127 - i && Preferred(i) && TheBook() == old(TheBook())
      {
        networks[i].preference := pref;
        if pref > 0 {
          pref := pref - 1;
        } else {
          return;
        }
      }
    }

    method ResetActive()
      modifies Managed()`active
      ensures forall k | k in networksMap :: networksMap[k].active <==> networksMap[k] in networks
      ensures AsNoted(TheBook(), old(TheBook()))
    {
      forall k | k in networksMap {
        networksMap[k].active := networksMap[k] in networks;
      }
    }

    /** The networks that were merged become those that are listed. */
    method Publish(merged: seq<Network>)
      requires MapOk() && ListOk(merged)
      modifies `networks, Managed()`active, Managed()`preference
      ensures Valid() && InOrder() && Preferred(|networks|) && AsNoted(TheBook(), old(TheBook()))
      ensures |networks| == |merged| && forall n :: n in networks <==> n in merged
    {
      networks := merged;
      ResetActive();
      Arrange();
    }

    method Arrange()
      requires ListOk(networks)
      modifies `networks, (set n | n in networks)`preference
      ensures InOrder() && Preferred(|networks|) && NoDuplicates(networks)
      ensures |networks| == |old(networks)| && forall n :: n in networks <==> n in old(networks)
      ensures TheBook() == old(TheBook())
    {
      SortNetworkList();
      InOrderNoDuplicates();
      AssignPreferences();
    }

    /** What the order is for: the smaller type is preferred, and among equal types the higher precedence. */
    lemma PreferredByType(a: Network, b: Network)
      requires InOrder() && Preferred(|networks|) && |networks| <= 128 && a in networks && b in networks
      ensures a.kind < b.kind ==> a.preference > b.preference
      ensures a.kind == b.kind && precedence(a.key, a.ips) > precedence(b.key, b.ips) ==> a.preference > b.preference
    {
      var i :| 0 <= i < |networks| && networks[i] == a;
      var j :| 0 <= j < |networks| && networks[j] == b;
      if j < i { assert RankLess(RankOf(networks[j]), RankOf(networks[i])); }
    }

    lemma InOrderNoDuplicates()
      requires InOrder()
      ensures NoDuplicates(networks)
    {
      forall i, j | 0 <= i < j < |networks| ensures networks[i] != networks[j] {
        var r := RankOf(networks[i]);
        RankOrder(r, r, r);
      }
    }

    lemma ListedBefore(known: map<Key, Known>)
      requires Valid() && known == TheBook().known
      ensures NoDuplicates(NetworkKeys(networks))
      ensures forall k :: k in known && known[k].active <==> HasKey(networks, k)
    {
    }

    lemma MergedOk(entries: seq<Entry>, found: seq<Found>, merged: seq<Network>)
      requires MapOk() && |merged| == |entries| == |found| && DistinctFound(found)
      requires forall e | 0 <= e < |entries| :: Placed(entries[e], merged[e]) && found[e].network == entries[e].network
      ensures ListOk(merged)
      ensures forall k :: HasKey(merged, k) <==> IsFound(found, k)
    {
      assert forall e | 0 <= e < |merged| :: merged[e].key == found[e].network.key;
      forall e, f | 0 <= e < f < |merged| ensures merged[e] != merged[f] {
        assert found[e].network.key != found[f].network.key;
      }
    }

    lemma PublishedMeansFound(merged: seq<Network>, found: seq<Found>)
      requires Valid() && ListOk(merged)
      requires forall k :: HasKey(merged, k) <==> IsFound(found, k)
      requires forall n :: n in networks <==> n in merged
      ensures ActiveIfFound(TheBook().known, found)
    {
      forall k | k in networksMap ensures networksMap[k].active <==> HasKey(merged, k) {
        if i :| 0 <= i < |merged| && merged[i].key == k {
          assert merged[i] in networks;
        }
      }
    }

    /** The networks that were listed are in the map still, and active. */
    lemma StillListed(book: Book, found: seq<Found>)
      requires DistinctFound(found) && MapOk() && TheBook() == NoteAll(book, found)
      requires NoDuplicates(networks)
      requires forall n | n in networks :: n.key in book.known && book.known[n.key].network == n
      requires forall k | k in book.known :: book.known[k].active <==> book.known[k].network in networks
      ensures ListOk(networks)
      ensures !Changes(book.known, found) ==> Valid() && ActiveIfFound(TheBook().known, found)
    {
      NoteAllKeeps(book, found);
      forall n | n in networks ensures n.key in networksMap && networksMap[n.key] == n {
        assert TheBook().known[n.key].network == n;
      }
      if !Changes(book.known, found) {
        forall k | k in networksMap ensures networksMap[k].active <==> networksMap[k] in networks {
          assert TheBook().known[k].network == networksMap[k];
          assert k in book.known;
        }
      }
    }

    /** Of the networks that were found, those that are not managed have been deleted, and no others. */
    ghost predicate Accounted(entries: seq<Entry>)
      reads `networksMap, (set e | e in entries :: e.network)`freed
    {
      forall e | 0 <= e < |entries| :: entries[e].network.freed <==> entries[e].network !in Managed()
    }

    /** The list is replaced when something is new. */
    method PublishFound(merged: seq<Network>, ghost found: seq<Found>)
      requires MapOk() && ListOk(merged)
      requires forall k :: HasKey(merged, k) <==> IsFound(found, k)
      modifies `networks, Managed()`active, Managed()`preference
      ensures Valid() && InOrder() && Preferred(|networks|) && AsNoted(TheBook(), old(TheBook()))
      ensures ActiveIfFound(TheBook().known, found)
    {
      Publish(merged);
      PublishedMeansFound(merged, found);
    }

    /** The second step, and whether there is anything new. */
    method MergeKnown(entries: seq<Entry>, ghost found: seq<Found>) returns (merged: seq<Network>, changed: bool)
      requires Valid() && |found| == |entries| && DistinctFound(found)
      requires forall e | 0 <= e < |entries| :: Awaits(entries[e], found[e])
      modifies `networksMap, `nextId
      modifies Reach(entries)`ips, Reach(entries)`kind, Reach(entries)`id, Reach(entries)`freed
      ensures MapOk() && TheBook() == NoteAll(old(TheBook()), found)
      ensures ListOk(merged) && forall k :: HasKey(merged, k) <==> IsFound(found, k)
      ensures changed <==> Changes(old(TheBook()).known, found)
      ensures !changed ==> Valid() && ActiveIfFound(TheBook().known, found)
      ensures Accounted(entries) && Managed() <= old(Reach(entries))
    {
      ghost var book := TheBook();
      ListedBefore(book.known);
      ChangeIsDetected(book.known, networks, found);
      merged, changed := MergeAll(entries, found);
      StillListed(book, found);
      MergedOk(entries, found, merged);
      PlacedOrFreed(entries, merged);
      if |merged| != |networks| {
        changed := true;
      }
    }

    method MergeFound(entries: seq<Entry>, ghost found: seq<Found>) returns (changed: bool)
      requires Valid() && |found| == |entries| && DistinctFound(found)
      requires forall e | 0 <= e < |entries| :: Awaits(entries[e], found[e])
      modifies this, Reach(entries)
      ensures Valid() && AsNoted(TheBook(), NoteAll(old(TheBook()), found)) && Accounted(entries)
      ensures ActiveIfFound(TheBook().known, found)
      ensures changed <==> Changes(old(TheBook()).known, found)
      ensures Managed() <= old(Reach(entries))
      ensures !changed ==> networks == old(networks)
      ensures changed ==> InOrder() && Preferred(|networks|)
    {
      var merged;
      merged, changed := MergeKnown(entries, found);
      if changed {
        PublishFound(merged, found);
      }
    }

    method MergeMatching(entries: seq<Entry>, ghost found: seq<Found>, ghost findings: map<Key, Found>,
                         ghost known: map<Key, Known>)
      returns (changed: bool)
      requires known == TheBook().known
      requires Valid() && |found| == |entries| && DistinctFound(found) && Matches(found, findings)
      requires forall e | 0 <= e < |entries| :: Awaits(entries[e], found[e])
      modifies this, Reach(entries)
      ensures Valid() && MergeLaw(known, findings, TheBook().known, changed)
      ensures !changed ==> networks == old(networks)
      ensures changed ==> InOrder() && Preferred(|networks|)
      ensures Accounted(entries) && Managed() <= old(Reach(entries))
    {
      changed := MergeFound(entries, found);
      LawOfNotes(old(TheBook()), found, findings, TheBook(), changed);
    }

    lemma PlacedOrFreed(entries: seq<Entry>, merged: seq<Network>)
      requires MapOk() && |merged| == |entries|
      requires forall e | 0 <= e < |entries| :: Placed(entries[e], merged[e])
      ensures Accounted(entries)
    {
    }

    /** What the source asks of a list: live networks, none of them twice, all active; one that is managed
        already comes before others with its key, which are deleted. */
    ghost predicate Mergeable(list: seq<Network>)
      reads `networksMap, list
    {
      && NoDuplicates(list)
      && (forall n | n in list :: !n.freed && n.active)
      && (forall n | n in list && n in Managed() :: Leads(list, n))
    }

    method MergeNetworkList(list: seq<Network>) returns (changed: bool)
      requires Valid() && Mergeable(list)
      modifies this, Managed(), list
      ensures Valid()
      ensures MergeLaw(old(TheBook()).known, old(Findings(list)), TheBook().known, changed)
      ensures !changed ==> networks == old(networks)
      ensures changed ==> InOrder() && Preferred(|networks|)
      ensures Owned(list)
    {
      ghost var known, findings := TheBook().known, Findings(list);
      ghost var found;
      var entries;
      entries, found := Gather(list);
      changed := MergeGathered(list, entries, found, findings, known);
    }

    method MergeGathered(ghost list: seq<Network>, entries: seq<Entry>, ghost found: seq<Found>, ghost findings: map<Key, Found>,
                         ghost known: map<Key, Known>)
      returns (changed: bool)
      requires known == TheBook().known
      requires Valid() && |found| == |entries| && DistinctFound(found) && Matches(found, findings)
      requires forall e | 0 <= e < |entries| :: Awaits(entries[e], found[e]) && Leads(list, entries[e].network)
      requires Covers(list, entries) && forall n | n in list && !Leads(list, n) :: n.freed && n !in Reach(entries)
      modifies this, Reach(entries)
      ensures Valid() && MergeLaw(known, findings, TheBook().known, changed)
      ensures !changed ==> networks == old(networks)
      ensures changed ==> InOrder() && Preferred(|networks|)
      ensures Owned(list)
    {
      changed := MergeMatching(entries, found, findings, known);
      AllOwned(list, entries);
    }

    /** The first step leaves the networks that are managed as they are. */
    method Gather(list: seq<Network>) returns (entries: seq<Entry>, ghost found: seq<Found>)
      requires Valid() && Mergeable(list)
      modifies (set n | n in list)`freed
      ensures Valid() && TheBook() == old(TheBook())
      ensures |found| == |entries| && DistinctFound(found) && Matches(found, old(Findings(list)))
      ensures forall e | 0 <= e < |entries| :: Awaits(entries[e], found[e]) && Leads(list, entries[e].network)
      ensures Covers(list, entries)
      ensures forall n | n in list && !Leads(list, n) :: n.freed && n !in Reach(entries)
    {
      entries := ConsolidateAll(list);
      found := FoundOf(entries);
      FindingsMatch(list, entries);
      OthersOutOfReach(list, entries);
      LeadersAwait(list, entries);
    }

    lemma LeadersAwait(list: seq<Network>, entries: seq<Entry>)
      requires Consolidated(list, entries) && forall n | n in list :: n.active && (n.freed <==> !Leads(list, n))
      ensures forall e | 0 <= e < |entries| :: Awaits(entries[e], FoundOf(entries)[e]) && Leads(list, entries[e].network)
    {
      forall e | 0 <= e < |entries| ensures entries[e].network in list {
        assert Leads(list, entries[e].network);
      }
    }

    method ConsolidateAll(list: seq<Network>) returns (entries: seq<Entry>)
      requires Valid() && Mergeable(list)
      modifies (set n | n in list)`freed
      ensures Valid() && TheBook() == old(TheBook())
      ensures Consolidated(list, entries) && forall n | n in list :: n.active
      ensures forall n | n in list :: n.freed <==> !Leads(list, n)
    {
      entries := Consolidate(list);
    }

    /** Every object that was handed over is managed or deleted. */
    ghost predicate Owned(list: seq<Network>)
      reads `networksMap, (set n | n in list)`freed
    {
      forall n | n in list :: n.freed <==> n !in Managed()
    }

    lemma OthersOutOfReach(list: seq<Network>, entries: seq<Entry>)
      requires DistinctKeys(entries)
      requires forall e | 0 <= e < |entries| :: Leads(list, entries[e].network)
      requires forall n | n in list && n in Managed() :: Leads(list, n)
      ensures forall n | n in list && !Leads(list, n) :: n !in Reach(entries)
    {
    }

    lemma AllOwned(list: seq<Network>, entries: seq<Entry>)
      requires forall e | 0 <= e < |entries| :: Leads(list, entries[e].network)
      requires Covers(list, entries)
      requires Accounted(entries)
      requires forall n | n in list && !Leads(list, n) :: n.freed && n !in Managed()
      ensures Owned(list)
    {
      forall n | n in list && Leads(list, n) ensures n.freed <==> n !in Managed() {
        assert HasEntry(entries, n.key);
        var e :| 0 <= e < |entries| && entries[e].network.key == n.key;
        LeaderLeads(list, n);
        LeaderLeads(list, entries[e].network);
      }
    }
  }

  lemma SameElements<T>(s: seq<T>, t: seq<T>)
    requires multiset(s) == multiset(t)
    ensures |s| == |t| && forall x :: x in s <==> x in t
  {
    assert |s| == |multiset(s)| == |multiset(t)| == |t|;
    forall x ensures x in s <==> x in t {
      assert x in s <==> x in multiset(s);
    }
  }

  lemma SameNetworks(list: seq<Network>, ranked: seq<Ranked>, sorted: seq<Ranked>)
    requires |list| == |ranked| && forall k | 0 <= k < |list| :: ranked[k].network == list[k]
    requires forall x :: x in ranked <==> x in sorted
    ensures forall n :: n in Strip(sorted) <==> n in list
  {
    forall n ensures n in Strip(sorted) <==> n in list {
      if k :| 0 <= k < |sorted| && Strip(sorted)[k] == n {
        assert sorted[k] in ranked;
      }
      if k :| 0 <= k < |list| && list[k] == n {
        assert ranked[k] in sorted;
      }
    }
  }

  function Strip(s: seq<Ranked>): (r: seq<Network>)
    ensures |r| == |s| && forall i | 0 <= i < |s| :: r[i] == s[i].network
  {
    if s == [] then [] else [s[0].network] + Strip(s[1..])
  }
}
