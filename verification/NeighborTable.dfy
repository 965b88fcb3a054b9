/** The neighbour table as a value: what receiving a frame and a timer tick do to it, and
    what holds in every run of the two. The linked list of module Neighbors implements it. */
module NeighborTable {
  import opened Bytes
  import opened Wrappers

  datatype Timespec = Timespec(sec: int, nsec: int)

  /** The interface a frame came in on and the sender's MAC address. */
  datatype Identity = Identity(name: CString, mac: seq<Byte>)

  /** capacity is the allocated size of the frame buffer, frame its consumed part; both are
      empty while no buffer was allocated. */
  datatype Entry = Entry(deviceType: int, id: Identity, receivedAt: Timespec, capacity: nat, frame: seq<Byte>)

  /** What is known of a neighbour: when it was last heard of, the longest length of its frames
      so far, and its last frame that was not empty. */
  datatype Record = Record(at: Timespec, longest: nat, frame: seq<Byte>)

  // ---------- Single entries ----------

  function NewEntry(deviceType: int, id: Identity): Entry {
    Entry(deviceType, id, Timespec(0, 0), 0, [])
  }

  /** cdp_neighbor_set_frame_buffer: an empty frame is refused, a buffer only ever grows. */
  function Accept(e: Entry, frame: seq<Byte>): Entry {
    if frame == [] then e
    else e.(capacity := if e.capacity < |frame| then |frame| else e.capacity, frame := frame)
  }

  function RecordOf(e: Entry): Record {
    Record(e.receivedAt, e.capacity, e.frame)
  }

  /** Byte 1 of the last frame, once some frame had the four bytes of a header. */
  function HoldTimeOf(r: Record): Byte {
    if r.longest < 4 || |r.frame| < 2 then 0 else r.frame[1]
  }

  /** The seconds since the last frame and the one added to them are 32-bit ints. */
  predicate Stale(r: Record, now: Timespec) {
    Int32(Int32(now.sec - r.at.sec) + 1) >= HoldTimeOf(r)
  }

  function HoldTime(e: Entry): Byte {
    HoldTimeOf(RecordOf(e))
  }

  predicate Expired(e: Entry, now: Timespec) {
    Stale(RecordOf(e), now)
  }

  // ---------- Operations on the list ----------

  /** The index of the first entry with the identity, or the length. */
  function Lookup(t: seq<Entry>, id: Identity): (k: nat)
    ensures k <= |t|
    ensures k < |t| ==> t[k].id == id
    ensures forall i | 0 <= i < k :: t[i].id != id
  {
    if t == [] then 0
    else if t[0].id == id then 0
    else 1 + Lookup(t[1..], id)
  }

  lemma {:induction false} LookupIs(t: seq<Entry>, id: Identity, k: nat)
    requires k <= |t| && (k < |t| ==> t[k].id == id) && forall i | 0 <= i < k :: t[i].id != id
    ensures Lookup(t, id) == k
  {
  }

  predicate Has(t: seq<Entry>, id: Identity) {
    Lookup(t, id) < |t|
  }

  function Found(t: seq<Entry>, deviceType: int, id: Identity): seq<Entry> {
    if Has(t, id) then t else t + [NewEntry(deviceType, id)]
  }

  /** A frame from id: find or append its entry, stamp it, store the frame. */
  function Receive(t: seq<Entry>, deviceType: int, id: Identity, now: Timespec, frame: seq<Byte>): seq<Entry> {
    var u := Found(t, deviceType, id);
    var k := Lookup(t, id);
    u[k := Accept(u[k].(receivedAt := now), frame)]
  }

  function Alive(t: seq<Entry>, now: Timespec): seq<Entry> {
    if t == [] then []
    else if Expired(t[|t| - 1], now) then Alive(t[..|t| - 1], now)
    else Alive(t[..|t| - 1], now) + [t[|t| - 1]]
  }

  /** The purge walk gives up after removing an expired head; otherwise it removes every
      expired entry. */
  function Purge(t: seq<Entry>, now: Timespec): seq<Entry> {
    if t != [] && Expired(t[0], now) then t[1..] else Alive(t, now)
  }

  // ---------- The table under its two kinds of step ----------

  const ARPHRD_ETHER := 1

  /** count is the list's own counter, which append raises only on an empty list and removal
      never lowers. */
  datatype Table = Table(entries: seq<Entry>, count: int)

  const EMPTY := Table([], 0)

  datatype Event =
    | Received(deviceType: int, id: Identity, at: Timespec, frame: seq<Byte>)
    | Tick(at: Timespec)

  function Step(t: Table, e: Event): Table {
    match e
    case Received(deviceType, id, now, frame) =>
      if deviceType != ARPHRD_ETHER then t
      else Table(Receive(t.entries, deviceType, id, now, frame), if t.entries == [] then t.count + 1 else t.count)
    case Tick(now) => t.(entries := Purge(t.entries, now))
  }

  function Run(t: Table, events: seq<Event>): Table {
    if events == [] then t else Step(Run(t, events[..|events| - 1]), events[|events| - 1])
  }

  // ---------- Receiving refines an insertion-ordered map ----------

  predicate Distinct(t: seq<Entry>) {
    forall i, j | 0 <= i < j < |t| :: t[i].id != t[j].id
  }

  datatype OrderedMap = OrderedMap(keys: seq<Identity>, data: map<Identity, Record>)

  function Put(m: OrderedMap, key: Identity, at: Timespec, frame: seq<Byte>): OrderedMap {
    var last := if key in m.data then m.data[key] else Record(at, 0, []);
    OrderedMap(
      if key in m.data then m.keys else m.keys + [key],
      m.data[key := Record(at, if last.longest < |frame| then |frame| else last.longest,
                           if frame == [] then last.frame else frame)])
  }

  function Without(keys: seq<Identity>, gone: set<Identity>): seq<Identity> {
    if keys == [] then []
    else Without(keys[..|keys| - 1], gone)
         + (if keys[|keys| - 1] in gone then [] else [keys[|keys| - 1]])
  }

  function Drop(m: OrderedMap, gone: set<Identity>): OrderedMap {
    OrderedMap(Without(m.keys, gone), map k | k in m.data && k !in gone :: m.data[k])
  }

  /** The keys a purge removes: an expired first one alone, else all expired ones. */
  function Overdue(m: OrderedMap, now: Timespec): set<Identity> {
    if m.keys != [] && m.keys[0] in m.data && Stale(m.data[m.keys[0]], now) then {m.keys[0]}
    else set k | k in m.data && Stale(m.data[k], now)
  }

  function Keys(t: seq<Entry>): seq<Identity> {
    seq(|t|, i requires 0 <= i < |t| => t[i].id)
  }

  function Data(t: seq<Entry>): map<Identity, Record> {
    if t == [] then map[] else Data(t[..|t| - 1])[t[|t| - 1].id := RecordOf(t[|t| - 1])]
  }

  function Abstract(t: seq<Entry>): OrderedMap {
    OrderedMap(Keys(t), Data(t))
  }

  lemma {:induction false} DataAt(t: seq<Entry>, x: Identity)
    requires Distinct(t)
    ensures x in Data(t) <==> Has(t, x)
    ensures Has(t, x) ==> Data(t)[x] == RecordOf(t[Lookup(t, x)])
  {
    if t == [] {
    } else {
      var front := t[..|t| - 1];
      DataAt(front, x);
      if Has(front, x) {
        assert t[Lookup(front, x)].id == x;
        LookupIn(t, Lookup(front, x));
      } else if t[|t| - 1].id == x {
        LookupIn(t, |t| - 1);
      }
    }
  }

  lemma LookupIn(t: seq<Entry>, i: nat)
    requires Distinct(t) && i < |t|
    ensures Lookup(t, t[i].id) == i
  {
  }

  /** u is t with the entry at k, found or appended, replaced by one of the same identity. */
  predicate Touches(t: seq<Entry>, u: seq<Entry>, id: Identity, k: nat) {
    && k == Lookup(t, id) < |u|
    && |u| == (if k < |t| then |t| else |t| + 1)
    && u[k].id == id
    && (forall i | 0 <= i < |t| && i != k :: u[i] == t[i])
  }

  lemma ReceiveTouches(t: seq<Entry>, deviceType: int, id: Identity, now: Timespec, frame: seq<Byte>)
    ensures var u := Receive(t, deviceType, id, now, frame);
            var k := Lookup(t, id);
            && Touches(t, u, id, k)
            && RecordOf(u[k]) == RecordAfter(t, k, now, frame)
  {
  }

  /** The record at index k of the table after a frame is stored there. */
  function RecordAfter(t: seq<Entry>, k: nat, now: Timespec, frame: seq<Byte>): Record {
    var last := if k < |t| then RecordOf(t[k]) else Record(now, 0, []);
    Record(now, if last.longest < |frame| then |frame| else last.longest, if frame == [] then last.frame else frame)
  }

  lemma TouchesKeepsDistinct(t: seq<Entry>, u: seq<Entry>, id: Identity, k: nat)
    requires Distinct(t) && Touches(t, u, id, k)
    ensures Distinct(u) && Keys(u) == (if k < |t| then Keys(t) else Keys(t) + [id]) && Lookup(u, id) == k
  {
    forall i | 0 <= i < |u| ensures u[i].id == if i < |t| then t[i].id else id {
    }
    LookupIn(u, k);
  }

  /** Receiving keeps identities distinct, keeps the order, and touches one entry. */
  lemma ReceiveTouchesOne(t: seq<Entry>, deviceType: int, id: Identity, now: Timespec, frame: seq<Byte>)
    requires Distinct(t)
    ensures var u := Receive(t, deviceType, id, now, frame);
            && Distinct(u)
            && Keys(u) == (if Has(t, id) then Keys(t) else Keys(t) + [id])
            && (forall i | 0 <= i < |t| && i != Lookup(t, id) :: u[i] == t[i])
            && Lookup(u, id) == Lookup(t, id) < |u|
            && u[Lookup(t, id)].receivedAt == now
  {
    ReceiveTouches(t, deviceType, id, now, frame);
    TouchesKeepsDistinct(t, Receive(t, deviceType, id, now, frame), id, Lookup(t, id));
  }

  lemma DataOfTouching(t: seq<Entry>, u: seq<Entry>, id: Identity, k: nat, x: Identity)
    requires Distinct(t) && Distinct(u) && Touches(t, u, id, k) && Lookup(u, id) == k
    requires Keys(u) == if k < |t| then Keys(t) else Keys(t) + [id]
    ensures x in Data(u) <==> x == id || x in Data(t)
    ensures x in Data(u) ==> Data(u)[x] == if x == id then RecordOf(u[k]) else Data(t)[x]
  {
    DataAt(t, x);
    DataAt(u, x);
    if x != id {
      SameLookup(t, u, id, x);
    }
  }

  lemma TouchingIsPut(t: seq<Entry>, u: seq<Entry>, id: Identity, k: nat, now: Timespec, frame: seq<Byte>)
    requires Distinct(t) && Touches(t, u, id, k) && RecordOf(u[k]) == RecordAfter(t, k, now, frame)
    ensures Abstract(u) == Put(Abstract(t), id, now, frame)
  {
    TouchesKeepsDistinct(t, u, id, k);
    DataAt(t, id);
    forall x
      ensures x in Data(u) <==> x == id || x in Data(t)
      ensures x in Data(u) ==> Data(u)[x] == if x == id then RecordOf(u[k]) else Data(t)[x]
    {
      DataOfTouching(t, u, id, k, x);
    }
    assert Data(u) == Data(t)[id := RecordOf(u[k])];
  }

  /** Receiving is the insertion-ordered map's update. */
  lemma ReceiveIsPut(t: seq<Entry>, deviceType: int, id: Identity, now: Timespec, frame: seq<Byte>)
    requires Distinct(t)
    ensures Abstract(Receive(t, deviceType, id, now, frame)) == Put(Abstract(t), id, now, frame)
  {
    ReceiveTouches(t, deviceType, id, now, frame);
    TouchingIsPut(t, Receive(t, deviceType, id, now, frame), id, Lookup(t, id), now, frame);
  }

  /** Other identities are found where they were. */
  lemma SameLookup(t: seq<Entry>, u: seq<Entry>, id: Identity, x: Identity)
    requires Distinct(t) && Distinct(u)
    requires Keys(u) == if Has(t, id) then Keys(t) else Keys(t) + [id]
    requires x != id
    ensures Has(u, x) <==> Has(t, x)
    ensures Has(t, x) ==> Lookup(u, x) == Lookup(t, x) && Lookup(t, x) != Lookup(t, id)
  {
    if Has(t, x) {
      var k := Lookup(t, x);
      assert Keys(u)[k] == Keys(t)[k] == x;
      LookupIn(u, k);
    }
    if Has(u, x) {
      var k := Lookup(u, x);
      assert Keys(u)[k] == x;
      assert k < |t| && Keys(t)[k] == x;
      LookupIn(t, k);
    }
  }

  // ---------- Purging ----------

  /** The identities a purge removes. */
  function Gone(t: seq<Entry>, now: Timespec): set<Identity> {
    if t != [] && Expired(t[0], now) then {t[0].id} else set e | e in t && Expired(e, now) :: e.id
  }

  lemma {:induction false} AliveKeeps(t: seq<Entry>, now: Timespec)
    ensures forall e :: e in Alive(t, now) <==> e in t && !Expired(e, now)
    ensures Distinct(t) ==> Distinct(Alive(t, now))
  {
    if t == [] {
    } else {
      var front, last := t[..|t| - 1], t[|t| - 1];
      AliveKeeps(front, now);
      assert t == front + [last];
      if Distinct(t) {
        forall e | e in Alive(front, now) ensures e.id != last.id {
          assert e in front;
        }
        forall i | 0 <= i < |Alive(front, now)| ensures Alive(front, now)[i].id != last.id {
          assert Alive(front, now)[i] in Alive(front, now);
        }
      }
    }
  }

  /** A purge removes expired entries only. */
  lemma PurgeSparesUnexpired(t: seq<Entry>, now: Timespec, e: Entry)
    requires e in t && !Expired(e, now)
    ensures e in Purge(t, now)
  {
    AliveKeeps(t, now);
    assert t != [] ==> t == [t[0]] + t[1..];
  }

  lemma {:induction false} AliveOfAlive(t: seq<Entry>, now: Timespec)
    requires forall e | e in t :: !Expired(e, now)
    ensures Alive(t, now) == t
  {
    if t == [] {
    } else {
      AliveOfAlive(t[..|t| - 1], now);
    }
  }

  lemma {:induction false} AliveSkipsHead(t: seq<Entry>, now: Timespec)
    requires t != [] && Expired(t[0], now)
    ensures Alive(t[1..], now) == Alive(t, now)
  {
    if |t| <= 1 {
    } else {
      assert t[1..][..|t| - 2] == t[..|t| - 1][1..];
      AliveSkipsHead(t[..|t| - 1], now);
    }
  }

  function PurgeTimes(t: seq<Entry>, now: Timespec, n: nat): seq<Entry>
    decreases n
  {
    if n == 0 then t else PurgeTimes(Purge(t, now), now, n - 1)
  }

  /** How many entries at the front are expired. */
  function ExpiredPrefix(t: seq<Entry>, now: Timespec): (n: nat)
    ensures n <= |t|
  {
    if t == [] || !Expired(t[0], now) then 0 else 1 + ExpiredPrefix(t[1..], now)
  }

  lemma {:induction false} AliveIsStable(t: seq<Entry>, now: Timespec, n: nat)
    requires forall e | e in t :: !Expired(e, now)
    ensures PurgeTimes(t, now, n) == t
  {
    if n == 0 {
    } else {
      AliveOfAlive(t, now);
      AliveIsStable(t, now, n - 1);
    }
  }

  lemma {:induction false} PurgeWithinPrefix(t: seq<Entry>, now: Timespec, n: nat)
    requires n <= ExpiredPrefix(t, now)
    ensures PurgeTimes(t, now, n) == t[n..]
    decreases n
  {
    if n == 0 {
    } else {
      PurgeOfExpiredHead(t, now);
      PurgeWithinPrefix(t[1..], now, n - 1);
      assert t[1..][n - 1..] == t[n..];
    }
  }

  lemma {:induction false} PurgeBeyondPrefix(t: seq<Entry>, now: Timespec, n: nat)
    requires n > ExpiredPrefix(t, now)
    ensures PurgeTimes(t, now, n) == Alive(t, now)
    decreases n
  {
    if t != [] && Expired(t[0], now) {
      PurgeOfExpiredHead(t, now);
      PurgeBeyondPrefix(t[1..], now, n - 1);
    } else {
      AliveKeeps(t, now);
      AliveIsStable(Alive(t, now), now, n - 1);
    }
  }

  /** Repeated purges at one time peel off the expired prefix one entry a call; the first
      call after that reaches the unexpired rest, where they stay. */
  lemma PurgeConverges(t: seq<Entry>, now: Timespec, n: nat)
    ensures PurgeTimes(t, now, n) == if n <= ExpiredPrefix(t, now) then t[n..] else Alive(t, now)
  {
    if n <= ExpiredPrefix(t, now) {
      PurgeWithinPrefix(t, now, n);
    } else {
      PurgeBeyondPrefix(t, now, n);
    }
  }

  /** One purge removes every expired neighbour exactly when the head is not expired or is the
      only one that is. */
  lemma PurgeIsCompleteIff(t: seq<Entry>, now: Timespec)
    ensures Purge(t, now) == Alive(t, now)
            <==> t == [] || !Expired(t[0], now) || forall i | 1 <= i < |t| :: !Expired(t[i], now)
  {
    if t != [] && Expired(t[0], now) {
      AliveSkipsHead(t, now);
      if i :| 1 <= i < |t| && Expired(t[i], now) {
        AliveKeeps(t[1..], now);
        assert t[1..][i - 1] == t[i];
      } else {
        forall e | e in t[1..] ensures !Expired(e, now) {
        }
        AliveOfAlive(t[1..], now);
      }
    }
  }

  lemma PurgeOfExpiredHead(t: seq<Entry>, now: Timespec)
    requires t != [] && Expired(t[0], now)
    ensures Purge(t, now) == t[1..] && ExpiredPrefix(t, now) == 1 + ExpiredPrefix(t[1..], now)
    ensures Alive(t[1..], now) == Alive(t, now)
  {
    AliveSkipsHead(t, now);
  }

  lemma {:induction false} KeysOfAlive(t: seq<Entry>, now: Timespec, gone: set<Identity>)
    requires forall e | e in t :: e.id in gone <==> Expired(e, now)
    ensures Keys(Alive(t, now)) == Without(Keys(t), gone)
  {
    if t == [] {
    } else {
      assert Keys(t)[..|t| - 1] == Keys(t[..|t| - 1]);
      KeysOfAlive(t[..|t| - 1], now, gone);
    }
  }

  lemma {:induction false} WithoutNothing(keys: seq<Identity>, gone: set<Identity>)
    requires forall k | k in keys :: k !in gone
    ensures Without(keys, gone) == keys
  {
    if keys == [] {
    } else {
      WithoutNothing(keys[..|keys| - 1], gone);
    }
  }

  lemma {:induction false} WithoutHead(keys: seq<Identity>, gone: set<Identity>)
    requires keys != [] && keys[0] in gone
    ensures Without(keys, gone) == Without(keys[1..], gone)
  {
    if |keys| <= 1 {
    } else {
      assert keys[1..][..|keys| - 2] == keys[..|keys| - 1][1..];
      WithoutHead(keys[..|keys| - 1], gone);
    }
  }

  lemma SameIdSameEntry(t: seq<Entry>, e: Entry, f: Entry)
    requires Distinct(t) && e in t && f in t && e.id == f.id
    ensures e == f
  {
    var i :| 0 <= i < |t| && t[i] == e;
    var j :| 0 <= j < |t| && t[j] == f;
    assert i == j;
  }

  lemma KeysBehindHead(t: seq<Entry>)
    requires Distinct(t) && t != []
    ensures Keys(t[1..]) == Without(Keys(t), {t[0].id})
  {
    assert Keys(t)[1..] == Keys(t[1..]);
    forall k | k in Keys(t)[1..] ensures k != t[0].id {
      var i :| 1 <= i < |t| && Keys(t)[i] == k;
    }
    WithoutHead(Keys(t), {t[0].id});
    WithoutNothing(Keys(t)[1..], {t[0].id});
  }

  lemma ExpiredIds(t: seq<Entry>, now: Timespec, e: Entry)
    requires Distinct(t) && e in t
    ensures e.id in (set f | f in t && Expired(f, now) :: f.id) <==> Expired(e, now)
  {
    if e.id in (set f | f in t && Expired(f, now) :: f.id) {
      var f :| f in t && Expired(f, now) && f.id == e.id;
      SameIdSameEntry(t, e, f);
    }
  }

  /** The keys left by a purge are the old ones, in order, without the gone. */
  lemma KeysOfPurge(t: seq<Entry>, now: Timespec)
    requires Distinct(t)
    ensures Distinct(Purge(t, now)) && Keys(Purge(t, now)) == Without(Keys(t), Gone(t, now))
  {
    if t != [] && Expired(t[0], now) {
      KeysBehindHead(t);
    } else {
      AliveKeeps(t, now);
      forall e | e in t ensures e.id in Gone(t, now) <==> Expired(e, now) {
        ExpiredIds(t, now, e);
      }
      KeysOfAlive(t, now, Gone(t, now));
    }
  }

  lemma PurgeMembers(t: seq<Entry>, now: Timespec, e: Entry)
    requires Distinct(t)
    ensures e in Purge(t, now) <==> e in t && e.id !in Gone(t, now)
  {
    AliveKeeps(t, now);
    if t != [] && Expired(t[0], now) {
      assert t == [t[0]] + t[1..];
      if e in t[1..] {
        var i :| 1 <= i < |t| && t[i] == e;
      }
    } else if e in t {
      ExpiredIds(t, now, e);
    }
  }

  lemma LookupOfMember(t: seq<Entry>, e: Entry)
    requires Distinct(t) && e in t
    ensures Has(t, e.id) && t[Lookup(t, e.id)] == e
  {
    var i :| 0 <= i < |t| && t[i] == e;
    LookupIn(t, i);
  }

  lemma PurgeRecord(t: seq<Entry>, now: Timespec, x: Identity)
    requires Distinct(t) && Distinct(Purge(t, now))
    ensures Has(Purge(t, now), x) <==> Has(t, x) && x !in Gone(t, now)
    ensures Has(Purge(t, now), x) ==> Purge(t, now)[Lookup(Purge(t, now), x)] == t[Lookup(t, x)]
  {
    var u := Purge(t, now);
    if Has(t, x) {
      PurgeMembers(t, now, t[Lookup(t, x)]);
      if x !in Gone(t, now) {
        LookupOfMember(u, t[Lookup(t, x)]);
      }
    }
    if Has(u, x) {
      PurgeMembers(t, now, u[Lookup(u, x)]);
      LookupOfMember(t, u[Lookup(u, x)]);
    }
  }

  lemma GoneIsOverdue(t: seq<Entry>, now: Timespec)
    requires Distinct(t)
    ensures Gone(t, now) == Overdue(Abstract(t), now)
  {
    if t != [] {
      DataAt(t, t[0].id);
      LookupIn(t, 0);
    }
    forall x ensures x in (set f | f in t && Expired(f, now) :: f.id) <==> x in Data(t) && Stale(Data(t)[x], now) {
      DataAt(t, x);
      if Has(t, x) {
        ExpiredIds(t, now, t[Lookup(t, x)]);
      }
    }
  }

  lemma DataOfPurge(t: seq<Entry>, now: Timespec)
    requires Distinct(t) && Distinct(Purge(t, now))
    ensures Data(Purge(t, now)) == map k | k in Data(t) && k !in Gone(t, now) :: Data(t)[k]
  {
    var u := Purge(t, now);
    forall x
      ensures x in Data(u) <==> x in Data(t) && x !in Gone(t, now)
      ensures x in Data(u) ==> Data(u)[x] == Data(t)[x]
    {
      DataAt(t, x);
      DataAt(u, x);
      PurgeRecord(t, now, x);
    }
  }

  /** Purging is the ordered map's removal of the overdue. */
  lemma PurgeIsDrop(t: seq<Entry>, now: Timespec)
    requires Distinct(t)
    ensures Distinct(Purge(t, now))
    ensures Abstract(Purge(t, now)) == Drop(Abstract(t), Overdue(Abstract(t), now))
  {
    KeysOfPurge(t, now);
    DataOfPurge(t, now);
    GoneIsOverdue(t, now);
  }

  // ---------- Every run ----------

  /** The ordered map's own steps, which know nothing of the list. */
  function AbstractStep(m: OrderedMap, e: Event): OrderedMap {
    match e
    case Received(deviceType, id, now, frame) => if deviceType != ARPHRD_ETHER then m else Put(m, id, now, frame)
    case Tick(now) => Drop(m, Overdue(m, now))
  }

  function AbstractRun(events: seq<Event>): OrderedMap {
    if events == [] then OrderedMap([], map[])
    else AbstractStep(AbstractRun(events[..|events| - 1]), events[|events| - 1])
  }

  /** Every step of the list is the step of the ordered map it stands for. */
  lemma StepRefines(t: Table, e: Event)
    requires Distinct(t.entries)
    ensures Distinct(Step(t, e).entries)
    ensures Abstract(Step(t, e).entries) == AbstractStep(Abstract(t.entries), e)
  {
    match e {
      case Received(deviceType, id, now, frame) =>
        ReceiveTouchesOne(t.entries, deviceType, id, now, frame);
        ReceiveIsPut(t.entries, deviceType, id, now, frame);
      case Tick(now) =>
        PurgeIsDrop(t.entries, now);
    }
  }

  /** In every run from the empty table the entries' identities are pairwise distinct, and
      the list holds exactly what the ordered map would hold, in the same order. */
  lemma {:induction false} RunRefinesOrderedMap(events: seq<Event>)
    ensures var t := Run(EMPTY, events).entries;
            Distinct(t) && Abstract(t) == AbstractRun(events)
  {
    if events == [] {
    } else {
      var before := events[..|events| - 1];
      RunRefinesOrderedMap(before);
      StepRefines(Run(EMPTY, before), events[|events| - 1]);
    }
  }

  /** Only frames from Ethernet devices, of device type 1, are stored: their sender then has an
      entry stamped with that time, which holds the frame unless it is empty. */
  lemma EthernetFramesAreStored(t: Table, deviceType: int, id: Identity, at: Timespec, frame: seq<Byte>)
    requires Distinct(t.entries)
    ensures var u := Step(t, Received(deviceType, id, at, frame));
            if deviceType != 1 then u == t
            else
              && Has(u.entries, id)
              && var e := u.entries[Lookup(u.entries, id)];
                 && e.receivedAt == at
                 && (frame != [] ==> e.frame == frame)
                 && e.deviceType == (if Has(t.entries, id) then t.entries[Lookup(t.entries, id)].deviceType else 1)
  {
    if deviceType == 1 {
      ReceiveTouchesOne(t.entries, deviceType, id, at, frame);
      ReceiveTouches(t.entries, deviceType, id, at, frame);
      ReceiveKeepsType(t.entries, deviceType, id, at, frame);
    }
  }

  /** A new entry gets the device type of its first frame, and keeps it. */
  lemma ReceiveKeepsType(t: seq<Entry>, deviceType: int, id: Identity, now: Timespec, frame: seq<Byte>)
    ensures var k := Lookup(t, id);
            var u := Receive(t, deviceType, id, now, frame);
            k < |u| && u[k].deviceType == (if k < |t| then t[k].deviceType else deviceType)
  {
    ReceiveTouches(t, deviceType, id, now, frame);
  }

  // ---------- The counter ----------

  /** How often the table went from empty to not empty. */
  function Fillings(t: Table, events: seq<Event>): nat {
    if events == [] then 0
    else
      var before := Run(t, events[..|events| - 1]).entries;
      Fillings(t, events[..|events| - 1]) + (if before == [] && Run(t, events).entries != [] then 1 else 0)
  }

  lemma AliveOfNothing(now: Timespec)
    ensures Purge([], now) == []
  {
  }

  /** The counter counts the fillings, not the entries. */
  lemma {:induction false} CountIsFillings(events: seq<Event>)
    ensures Run(EMPTY, events).count == Fillings(EMPTY, events)
    ensures Run(EMPTY, events).entries != [] ==> Run(EMPTY, events).count >= 1
  {
    if events == [] {
    } else {
      CountIsFillings(events[..|events| - 1]);
      var t := Run(EMPTY, events[..|events| - 1]);
      match events[|events| - 1] {
        case Received(deviceType, id, now, frame) =>
          ReceiveTouches(t.entries, deviceType, id, now, frame);
        case Tick(now) =>
          AliveOfNothing(now);
      }
    }
  }

  /** cdp_neighbor_list_get_by_index. */
  function GetByIndex(t: Table, index: int): Option<Entry> {
    if index < 0 || index >= t.count || index >= |t.entries| then None else Some(t.entries[index])
  }

  /** A nonempty table always shows its head, and every entry exactly if the counter has
      kept up with the length. */
  lemma ReachableByIndex(events: seq<Event>)
    ensures var t := Run(EMPTY, events);
            && (t.entries != [] ==> GetByIndex(t, 0) == Some(t.entries[0]))
            && ((forall i | 0 <= i < |t.entries| :: GetByIndex(t, i) == Some(t.entries[i])) <==> |t.entries| <= t.count)
  {
    CountIsFillings(events);
    var t := Run(EMPTY, events);
    if |t.entries| > t.count {
      assert GetByIndex(t, |t.entries| - 1) == None;
    }
  }

  lemma TwoSenders(a: Identity, b: Identity, at: Timespec, frame: seq<Byte>)
    requires a != b
    ensures var t := Run(EMPTY, [Received(ARPHRD_ETHER, a, at, frame), Received(ARPHRD_ETHER, b, at, frame)]);
            |t.entries| == 2 && t.count == 1
            && (forall i | 0 <= i < 2 :: RecordOf(t.entries[i]) == Record(at, |frame|, frame))
            && t.entries[0].id == a && t.entries[1].id == b
  {
    var e1, e2 := Received(ARPHRD_ETHER, a, at, frame), Received(ARPHRD_ETHER, b, at, frame);
    assert [e1, e2][..1] == [e1] && [e1][..0] == [];
    var t1 := Step(EMPTY, e1);
    assert Run(EMPTY, [e1][..0]) == EMPTY && Run(EMPTY, [e1]) == t1;
    assert Run(EMPTY, [e1, e2]) == Step(t1, e2);
    ReceiveTouches([], ARPHRD_ETHER, a, at, frame);
    ReceiveTouches(t1.entries, ARPHRD_ETHER, b, at, frame);
  }

  /** The counter does fall behind: two neighbours suffice. */
  lemma SecondNeighborIsHidden(a: Identity, b: Identity, at: Timespec, frame: seq<Byte>)
    requires a != b
    ensures var t := Run(EMPTY, [Received(ARPHRD_ETHER, a, at, frame), Received(ARPHRD_ETHER, b, at, frame)]);
            |t.entries| == 2 && t.count == 1 && GetByIndex(t, 1) == None
  {
    TwoSenders(a, b, at, frame);
  }

  /** The purge does leave an expired neighbour behind: two that announce a hold time of 0 have
      both expired at once, but one tick removes only the first. */
  lemma SecondExpiredNeighborStays(a: Identity, b: Identity, at: Timespec)
    requires a != b
    ensures var frame: seq<Byte> := [2, 0, 0, 0];
            var t := Run(EMPTY, [Received(ARPHRD_ETHER, a, at, frame), Received(ARPHRD_ETHER, b, at, frame)]);
            && |t.entries| == 2 && Alive(t.entries, at) == [] && Purge(t.entries, at) == [t.entries[1]]
            && Expired(t.entries[1], at)
  {
    TwoSenders(a, b, at, [2, 0, 0, 0]);
    var t := Run(EMPTY, [Received(ARPHRD_ETHER, a, at, [2, 0, 0, 0]), Received(ARPHRD_ETHER, b, at, [2, 0, 0, 0])]);
    assert Expired(t.entries[0], at) && Expired(t.entries[1], at);
    assert t.entries[..1][..0] == [];
    assert Alive(t.entries[..1], at) == [];
  }

  // ---------- Bounded liveness ----------

  function Ticks(events: seq<Event>): nat {
    if events == [] then 0 else Ticks(events[..|events| - 1]) + (if events[|events| - 1].Tick? then 1 else 0)
  }

  /** Nothing is heard of id, and every tick falls between the given second and the last one
      whose distance from start, plus one, an int can hold. */
  predicate Quiet(events: seq<Event>, id: Identity, since: int, start: int) {
    forall i | 0 <= i < |events| ::
      match events[i]
      case Received(deviceType, other, _, _) => deviceType == ARPHRD_ETHER ==> other != id
      case Tick(now) => since <= now.sec <= start + 0x7FFF_FFFE
  }

  lemma StaysExpired(e: Entry, since: Timespec, now: Timespec)
    requires Expired(e, since)
    requires e.receivedAt.sec <= since.sec <= now.sec <= e.receivedAt.sec + 0x7FFF_FFFE
    ensures Expired(e, now)
  {
  }

  lemma {:induction false} AliveShrinksLookup(t: seq<Entry>, now: Timespec, k: nat)
    requires Distinct(t) && k < |t| && Expired(t[k], now)
    ensures !Has(Alive(t, now), t[k].id)
  {
    AliveKeeps(t, now);
    forall e | e in Alive(t, now) ensures e.id != t[k].id {
      OtherEntryOtherId(t, e, k);
    }
  }

  lemma OtherEntryOtherId(t: seq<Entry>, e: Entry, k: nat)
    requires Distinct(t) && e in t && k < |t| && e != t[k]
    ensures e.id != t[k].id
  {
    var i :| 0 <= i < |t| && t[i] == e;
  }

  /** One step of a quiet run brings an expired entry one place forward, or removes it, if
      it is a tick, and leaves it where it is otherwise. */
  lemma QuietStep(t: Table, e: Event, id: Identity, k: nat)
    requires Distinct(t.entries) && k < |t.entries| && t.entries[k].id == id
    requires e.Tick? ==> Expired(t.entries[k], e.at)
    requires e.Received? && e.deviceType == ARPHRD_ETHER ==> e.id != id
    ensures var u := Step(t, e).entries;
            && Distinct(u)
            && (!Has(u, id)
                || (if e.Tick? then k > 0 && Lookup(u, id) == k - 1 && u[k - 1] == t.entries[k]
                    else Lookup(u, id) == k && u[k] == t.entries[k]))
  {
    match e {
      case Received(deviceType, other, now, frame) =>
        LookupIn(t.entries, k);
        if deviceType == ARPHRD_ETHER {
          ReceiveTouchesOne(t.entries, deviceType, other, now, frame);
          SameLookup(t.entries, Receive(t.entries, deviceType, other, now, frame), other, id);
        }
      case Tick(now) =>
        PurgeIsDrop(t.entries, now);
        if Expired(t.entries[0], now) {
          if k > 0 {
            LookupIn(t.entries[1..], k - 1);
          }
        } else {
          AliveShrinksLookup(t.entries, now, k);
        }
    }
  }

  lemma AbsentStaysAbsent(t: Table, e: Event, id: Identity)
    requires Distinct(t.entries) && !Has(t.entries, id)
    requires e.Received? && e.deviceType == ARPHRD_ETHER ==> e.id != id
    ensures Distinct(Step(t, e).entries) && !Has(Step(t, e).entries, id)
  {
    match e {
      case Received(deviceType, other, now, frame) =>
        if deviceType == ARPHRD_ETHER {
          ReceiveTouchesOne(t.entries, deviceType, other, now, frame);
          SameLookup(t.entries, Receive(t.entries, deviceType, other, now, frame), other, id);
        }
      case Tick(now) =>
        PurgeIsDrop(t.entries, now);
        PurgeRecord(t.entries, now, id);
    }
  }

  /** While id is quiet, an expired entry is gone or has moved forward by one place a tick. */
  lemma {:induction false} QuietRun(t: Table, events: seq<Event>, id: Identity, since: Timespec)
    requires Distinct(t.entries) && Has(t.entries, id)
    requires var e := t.entries[Lookup(t.entries, id)];
             && Expired(e, since) && e.receivedAt.sec <= since.sec
             && Quiet(events, id, since.sec, e.receivedAt.sec)
    ensures var k := Lookup(t.entries, id);
            var u := Run(t, events).entries;
            && Distinct(u)
            && (!Has(u, id) || (Ticks(events) <= k && Lookup(u, id) == k - Ticks(events)
                                && u[k - Ticks(events)] == t.entries[k]))
  {
    if events == [] {
    } else {
      var before, last := events[..|events| - 1], events[|events| - 1];
      QuietRun(t, before, id, since);
      var u := Run(t, before);
      if Has(u.entries, id) {
        var k := Lookup(t.entries, id);
        if last.Tick? {
          StaysExpired(t.entries[k], since, last.at);
        }
        QuietStep(u, last, id, k - Ticks(before));
      } else {
        AbsentStaysAbsent(u, last, id);
      }
    }
  }

  /** Bounded liveness: an expired neighbour at position p that is not heard of again is out
      of the table after p + 1 ticks, however receive and tick steps interleave. */
  lemma ExpiredNeighborLeaves(t: Table, events: seq<Event>, id: Identity, since: Timespec)
    requires Distinct(t.entries) && Has(t.entries, id)
    requires var e := t.entries[Lookup(t.entries, id)];
             && Expired(e, since) && e.receivedAt.sec <= since.sec
             && Quiet(events, id, since.sec, e.receivedAt.sec)
    requires Ticks(events) > Lookup(t.entries, id)
    ensures !Has(Run(t, events).entries, id)
  {
    QuietRun(t, events, id, since);
  }

  /** The bound is met: behind p expired entries, p ticks are not enough. */
  lemma LivenessBoundIsTight(t: seq<Entry>, now: Timespec, p: nat)
    requires Distinct(t) && p < |t| && ExpiredPrefix(t, now) > p
    ensures Has(PurgeTimes(t, now, p), t[p].id) && !Has(PurgeTimes(t, now, p + 1), t[p].id)
  {
    PurgeWithinPrefix(t, now, p);
    PurgeWithinPrefix(t, now, p + 1);
    HeadOfRest(t, p);
  }

  lemma HeadOfRest(t: seq<Entry>, p: nat)
    requires Distinct(t) && p < |t|
    ensures Has(t[p..], t[p].id) && !Has(t[p + 1..], t[p].id)
  {
    LookupIn(t[p..], 0);
  }

  // ---------- Safety over runs ----------

  predicate IsFrom(e: Event, id: Identity) {
    e.Received? && e.deviceType == ARPHRD_ETHER && e.id == id
  }

  predicate SilentOn(events: seq<Event>, id: Identity) {
    forall i | 0 <= i < |events| :: !IsFrom(events[i], id)
  }

  /** Nothing is heard of id, and no tick finds the entry expired. */
  predicate Undisturbed(events: seq<Event>, id: Identity, e: Entry) {
    SilentOn(events, id) && forall i | 0 <= i < |events| :: events[i].Tick? ==> !Expired(e, events[i].at)
  }

  lemma {:induction false} PlaceInAlive(t: seq<Entry>, now: Timespec, k: nat) returns (i: nat)
    requires k < |t| && !Expired(t[k], now)
    ensures i <= k && i < |Alive(t, now)| && Alive(t, now)[i] == t[k]
  {
    if k == |t| - 1 {
      i := |Alive(t[..k], now)|;
      AliveIsShorter(t[..k], now);
    } else {
      i := PlaceInAlive(t[..|t| - 1], now, k);
    }
  }

  lemma {:induction false} AliveIsShorter(t: seq<Entry>, now: Timespec)
    ensures |Alive(t, now)| <= |t|
  {
    if t == [] {
    } else {
      AliveIsShorter(t[..|t| - 1], now);
    }
  }

  lemma PlaceInPurge(t: seq<Entry>, now: Timespec, k: nat)
    requires Distinct(t) && k < |t| && !Expired(t[k], now)
    ensures var u := Purge(t, now);
            && Distinct(u) && Has(u, t[k].id) && u[Lookup(u, t[k].id)] == t[k] && Lookup(u, t[k].id) <= k
  {
    PurgeIsDrop(t, now);
    if Expired(t[0], now) {
      LookupIn(t[1..], k - 1);
    } else {
      var i := PlaceInAlive(t, now, k);
      LookupIn(Alive(t, now), i);
    }
  }

  /** A tick that does not find it expired, or a frame from another, leaves an entry as it was,
      and no further back. */
  lemma UndisturbedStep(t: Table, e: Event, id: Identity)
    requires Distinct(t.entries) && Has(t.entries, id) && !IsFrom(e, id)
    requires e.Tick? ==> !Expired(t.entries[Lookup(t.entries, id)], e.at)
    ensures var u := Step(t, e).entries;
            && Distinct(u) && Has(u, id) && u[Lookup(u, id)] == t.entries[Lookup(t.entries, id)]
            && Lookup(u, id) <= Lookup(t.entries, id)
  {
    match e {
      case Received(deviceType, other, now, frame) =>
        if deviceType == ARPHRD_ETHER {
          ReceiveTouchesOne(t.entries, deviceType, other, now, frame);
          SameLookup(t.entries, Receive(t.entries, deviceType, other, now, frame), other, id);
        }
      case Tick(now) =>
        PlaceInPurge(t.entries, now, Lookup(t.entries, id));
    }
  }

  /** As long as no tick finds it expired, a neighbour stays in the table exactly as it was,
      whatever is received from others and purged around it. */
  lemma {:induction false} FreshNeighborStays(t: Table, events: seq<Event>, id: Identity)
    requires Distinct(t.entries) && Has(t.entries, id)
    requires Undisturbed(events, id, t.entries[Lookup(t.entries, id)])
    ensures var u := Run(t, events).entries;
            && Distinct(u) && Has(u, id) && u[Lookup(u, id)] == t.entries[Lookup(t.entries, id)]
            && Lookup(u, id) <= Lookup(t.entries, id)
  {
    if events == [] {
    } else {
      FreshNeighborStays(t, events[..|events| - 1], id);
      UndisturbedStep(Run(t, events[..|events| - 1]), events[|events| - 1], id);
    }
  }

  /** What id's own frames among the events make of its entry. */
  function EntryAfter(e: Entry, events: seq<Event>, id: Identity): Entry {
    if events == [] then e
    else
      var before, last := EntryAfter(e, events[..|events| - 1], id), events[|events| - 1];
      if IsFrom(last, id) then Accept(before.(receivedAt := last.at), last.frame) else before
  }

  /** No tick finds the entry expired, as the frames before the tick left it. */
  predicate HeardInTime(events: seq<Event>, id: Identity, e: Entry) {
    forall i | 0 <= i < |events| :: events[i].Tick? ==> !Expired(EntryAfter(e, events[..i], id), events[i].at)
  }

  lemma HeardInTimeBefore(events: seq<Event>, id: Identity, e: Entry)
    requires events != [] && HeardInTime(events, id, e)
    ensures HeardInTime(events[..|events| - 1], id, e)
  {
    var before := events[..|events| - 1];
    forall i | 0 <= i < |before| && before[i].Tick?
      ensures !Expired(EntryAfter(e, before[..i], id), before[i].at)
    {
      assert before[..i] == events[..i];
    }
  }

  lemma OwnFrameStep(t: Table, e: Event, id: Identity)
    requires Distinct(t.entries) && Has(t.entries, id) && IsFrom(e, id)
    ensures var u := Step(t, e).entries;
            && Distinct(u) && Has(u, id) && Lookup(u, id) == Lookup(t.entries, id)
            && u[Lookup(u, id)] == Accept(t.entries[Lookup(t.entries, id)].(receivedAt := e.at), e.frame)
  {
    ReceiveTouchesOne(t.entries, e.deviceType, id, e.at, e.frame);
  }

  /** A neighbour that is heard again before any tick finds it expired is never lost, over every
      interleaving with other senders and ticks; its entry is what its own frames make of it. */
  lemma {:induction false} RefreshedNeighborStays(t: Table, events: seq<Event>, id: Identity)
    requires Distinct(t.entries) && Has(t.entries, id)
    requires HeardInTime(events, id, t.entries[Lookup(t.entries, id)])
    ensures var u := Run(t, events).entries;
            && Distinct(u) && Has(u, id) && Lookup(u, id) <= Lookup(t.entries, id)
            && u[Lookup(u, id)] == EntryAfter(t.entries[Lookup(t.entries, id)], events, id)
  {
    if events == [] {
    } else {
      var before, last := events[..|events| - 1], events[|events| - 1];
      HeardInTimeBefore(events, id, t.entries[Lookup(t.entries, id)]);
      RefreshedNeighborStays(t, before, id);
      if IsFrom(last, id) {
        OwnFrameStep(Run(t, before), last, id);
      } else {
        UndisturbedStep(Run(t, before), last, id);
      }
    }
  }

  // ---------- Liveness under any clock ----------

  /** How many ticks find the entry expired. */
  function ExpiredTicks(events: seq<Event>, e: Entry): nat {
    if events == [] then 0
    else
      var last := events[|events| - 1];
      ExpiredTicks(events[..|events| - 1], e) + (if last.Tick? && Expired(e, last.at) then 1 else 0)
  }

  /** Under any clock, while nothing is heard of it, every tick that finds a neighbour expired
      removes it or brings it at least one place forward, and no other event moves it back. */
  lemma {:induction false} SilentRun(t: Table, events: seq<Event>, id: Identity)
    requires Distinct(t.entries) && Has(t.entries, id) && SilentOn(events, id)
    ensures var k := Lookup(t.entries, id);
            var u := Run(t, events).entries;
            && Distinct(u)
            && (Has(u, id) ==> u[Lookup(u, id)] == t.entries[k]
                               && Lookup(u, id) + ExpiredTicks(events, t.entries[k]) <= k)
  {
    if events == [] {
    } else {
      var before, last := events[..|events| - 1], events[|events| - 1];
      SilentRun(t, before, id);
      var u := Run(t, before);
      if !Has(u.entries, id) {
        AbsentStaysAbsent(u, last, id);
      } else if last.Tick? && Expired(t.entries[Lookup(t.entries, id)], last.at) {
        QuietStep(u, last, id, Lookup(u.entries, id));
      } else {
        UndisturbedStep(u, last, id);
      }
    }
  }

  /** Hence p + 1 such ticks, among whatever others, remove it from position p. */
  lemma ExpiredTicksRemove(t: Table, events: seq<Event>, id: Identity)
    requires Distinct(t.entries) && Has(t.entries, id) && SilentOn(events, id)
    requires ExpiredTicks(events, t.entries[Lookup(t.entries, id)]) > Lookup(t.entries, id)
    ensures !Has(Run(t, events).entries, id)
  {
    SilentRun(t, events, id);
  }

  // ---------- Frame buffers ----------

  function AcceptAll(e: Entry, frames: seq<seq<Byte>>): Entry {
    if frames == [] then e else Accept(AcceptAll(e, frames[..|frames| - 1]), frames[|frames| - 1])
  }

  function LongestLength(frames: seq<seq<Byte>>): nat {
    if frames == [] then 0
    else
      var n := LongestLength(frames[..|frames| - 1]);
      if n < |frames[|frames| - 1]| then |frames[|frames| - 1]| else n
  }

  function LastNonEmpty(frames: seq<seq<Byte>>): seq<Byte> {
    if frames == [] then []
    else if frames[|frames| - 1] != [] then frames[|frames| - 1]
    else LastNonEmpty(frames[..|frames| - 1])
  }

  /** Over any sequence of frames, the buffer holds the last one that was not empty, its
      capacity is the longest length so far, and the hold time is byte 1 of the held frame
      exactly if that has two bytes and some frame so far had four. */
  lemma {:induction false} FrameBufferHistory(deviceType: int, id: Identity, frames: seq<seq<Byte>>)
    ensures var e := AcceptAll(NewEntry(deviceType, id), frames);
            && e.frame == LastNonEmpty(frames)
            && e.capacity == LongestLength(frames)
            && |e.frame| <= e.capacity
            && HoldTime(e) == (if LongestLength(frames) >= 4 && |LastNonEmpty(frames)| >= 2
                               then LastNonEmpty(frames)[1] else 0)
  {
    if frames == [] {
    } else {
      FrameBufferHistory(deviceType, id, frames[..|frames| - 1]);
    }
  }

  /** Hence a short frame's hold time depends on what was received before it. */
  lemma HoldTimeDependsOnHistory(deviceType: int, id: Identity, long: seq<Byte>, short: seq<Byte>)
    requires |long| >= 4 && 2 <= |short| < 4
    ensures HoldTime(AcceptAll(NewEntry(deviceType, id), [short])) == 0
    ensures HoldTime(AcceptAll(NewEntry(deviceType, id), [long, short])) == short[1]
  {
    assert [short][..0] == [] && [long, short][..1] == [long] && [long][..0] == [];
    FrameBufferHistory(deviceType, id, [short]);
    FrameBufferHistory(deviceType, id, [long, short]);
  }
}
