/** The ring of recent events that clients page through by id. */
module Events {

  import opened Common

  datatype Record = Record(id: nat, eventType: string, payload: string)

  function Take(s: seq<Record>, n: nat): seq<Record>
  {
    if |s| <= n then s else s[..n]
  }

  /** The records after an id, in order. */
  function After(s: seq<Record>, since: nat): seq<Record>
  {
    if s == [] then [] else (if s[0].id > since then [s[0]] else []) + After(s[1..], since)
  }

  lemma AfterStep(s: seq<Record>, i: nat, since: nat)
    requires i < |s|
    ensures After(s[i..], since) == if s[i].id > since then [s[i]] + After(s[i + 1..], since)
        else After(s[i + 1..], since)
  {
    assert s[i..][1..] == s[i + 1..];
  }

  lemma Regroup(r: seq<Record>, x: Record, rest: seq<Record>)
    ensures r + ([x] + rest) == r + [x] + rest
  {
  }

  lemma NothingAfter(s: seq<Record>, since: nat)
    ensures s == [] ==> After(s, since) == []
  {
  }

  lemma TakeWhole(r: seq<Record>, rest: seq<Record>, n: nat)
    requires |r| == n || (|r| <= n && rest == [])
    ensures Take(r + rest, n) == r
  {
  }

  class EventStore {
    var nextId: nat
    var events: seq<Record>
    const maxSize: nat
    /** The halves of pushes so far, in the order they took effect. */
    ghost var halves: seq<Half>

    /** The store is what its history of halves leaves, however they were interleaved. */
    ghost predicate Valid()
      reads this
    {
      Possible(halves) && nextId == NextId(halves) && events == Last(Inserted(halves), maxSize)
    }

    /** No push is under way, and none was ever interleaved with another. */
    ghost predicate Serial()
      reads this
    {
      Pending(halves) == {} && Follows(nextId, events, maxSize, Inserted(halves))
    }

    constructor (maxSize: nat)
      ensures this.maxSize == maxSize && halves == [] && nextId == 1 && events == []
      ensures Valid() && Serial()
    {
      this.maxSize := maxSize;
      nextId, events, halves := 1, [], [];
    }

    /** First half of a push: an id is taken without holding the lock. */
    method Allocate() returns (id: nat)
      requires Valid()
      modifies this`nextId, this`halves
      ensures Valid() && halves == old(halves) + [Allocating]
      ensures id == old(nextId) && nextId == id + 1 && id in Pending(halves) && id !in old(Pending(halves))
    {
      id := nextId;
      nextId := nextId + 1;
      halves := halves + [Allocating];
      HalvesNext(old(halves), Allocating);
      PendingIsBelow(old(halves));
    }

    /** Second half, under the lock: the record goes in at the end and the oldest ones fall out. */
    method Insert(record: Record)
      requires Valid() && record.id in Pending(halves)
      modifies this`events, this`halves
      ensures Valid() && halves == old(halves) + [Inserting(record)]
      ensures events == Last(old(events) + [record], maxSize)
    {
      events := events + [record];
      while |events| > maxSize
        invariant |events| <= |old(events) + [record]| &&
            events == (old(events) + [record])[|old(events) + [record]| - |events|..]
        invariant |events| >= maxSize || events == old(events) + [record]
        invariant halves == old(halves)
        decreases |events|
      {
        events := events[1..];
      }
      halves := halves + [Inserting(record)];
      HalvesNext(old(halves), Inserting(record));
      LastAppend(Inserted(old(halves)), record, maxSize);
    }

    /** A push that nothing interleaves with. */
    method Push(eventType: string, payload: string) returns (id: nat)
      requires Valid()
      modifies this`nextId, this`events, this`halves
      ensures Valid() && (old(Serial()) ==> Serial())
      ensures halves == old(halves) + [Allocating, Inserting(Record(id, eventType, payload))]
      ensures id == old(nextId) && nextId == id + 1
      ensures events == Last(old(events) + [Record(id, eventType, payload)], maxSize)
    {
      ghost var before := halves;
      id := Allocate();
      var record := Record(id, eventType, payload);
      HalvesNext(before, Allocating);
      HalvesNext(halves, Inserting(record));
      Insert(record);
      assert halves == before + [Allocating, Inserting(record)];
      if old(Serial()) {
        PushFollows(old(nextId), old(events), maxSize, Inserted(before), record);
      }
    }

    method Poll(since: nat, limit: nat) returns (r: seq<Record>)
      ensures r == Take(After(events, since), limit)
    {
      hide After, Take;
      r := [];
      var i := 0;
      while i < |events| && |r| < limit
        invariant 0 <= i <= |events| && |r| <= limit
        invariant After(events, since) == r + After(events[i..], since)
      {
        AfterStep(events, i, since);
        Regroup(r, events[i], After(events[i + 1..], since));
        if events[i].id > since {
          r := r + [events[i]];
        }
        i := i + 1;
      }
      NothingAfter(events[i..], since);
      TakeWhole(r, After(events[i..], since), limit);
    }

    /** No retained record, and no id handed out, is beyond the latest one. */
    function LatestId(): (id: nat)
      reads this
      ensures Valid() ==> (forall e | e in events :: 1 <= e.id <= id) && forall i | i in Pending(halves) :: i <= id
    {
      assert Valid() ==>
          && (forall e | e in events :: 1 <= e.id < nextId)
          && forall i | i in Pending(halves) :: i < nextId by {
        if Valid() {
          PendingIsBelow(halves);
          LastKeeps(Inserted(halves), maxSize);
        }
      }
      if nextId == 0 then 0 else nextId - 1
    }
  }

  // ----- Serial pushes -----

  /** The history of pushes: the k-th one got id k + 1. */
  ghost predicate IsLog(log: seq<Record>)
  {
    forall i | 0 <= i < |log| :: log[i].id == i + 1
  }

  /** A store that has seen exactly these pushes, none interleaved with another. */
  ghost predicate Follows(nextId: nat, events: seq<Record>, maxSize: nat, log: seq<Record>)
  {
    IsLog(log) && nextId == |log| + 1 && events == Last(log, maxSize)
  }

  /** After serial pushes the ring is the contiguous last ids, up to the latest one. */
  lemma PushFollows(nextId: nat, events: seq<Record>, maxSize: nat, log: seq<Record>, record: Record)
    requires Follows(nextId, events, maxSize, log) && record.id == nextId
    ensures Follows(nextId + 1, Last(events + [record], maxSize), maxSize, log + [record])
  {
    var all, kept := log + [record], events + [record];
    assert kept == all[|all| - |kept|..];
    if |kept| > maxSize {
      assert Last(kept, maxSize) == all[|all| - maxSize..];
    }
  }

  lemma RingIsContiguous(nextId: nat, events: seq<Record>, maxSize: nat, log: seq<Record>)
    requires Follows(nextId, events, maxSize, log)
    ensures |events| == if |log| <= maxSize then |log| else maxSize
    ensures forall i | 0 <= i < |events| :: events[i].id == nextId - |events| + i
  {
  }

  lemma {:induction false} AfterContiguous(s: seq<Record>, first: nat, since: nat)
    requires forall i | 0 <= i < |s| :: s[i].id == first + i
    ensures After(s, since) == s[if since < first then 0 else if since - first >= |s| then |s| else since - first + 1..]
  {
    if s != [] { AfterContiguous(s[1..], first + 1, since); }
  }

  /** The first log position a client at `cursor` can still be given. */
  function Reachable(cursor: nat, retained: nat, log: seq<Record>): nat
    requires retained <= |log|
  {
    if cursor < |log| - retained then |log| - retained else if cursor <= |log| then cursor else |log|
  }

  lemma SliceOfTail(log: seq<Record>, n: nat, k: nat)
    requires k <= n <= |log|
    ensures log[|log| - n..][k..] == log[|log| - n + k..]
  {
  }

  lemma RetainedAfter(events: seq<Record>, log: seq<Record>, cursor: nat)
    requires IsLog(log) && |events| <= |log| && events == log[|log| - |events|..]
    ensures After(events, cursor) == log[Reachable(cursor, |events|, log)..]
  {
    var first := |log| - |events| + 1;
    forall i | 0 <= i < |events| ensures events[i].id == first + i {
      assert events[i] == log[|log| - |events| + i];
    }
    AfterContiguous(events, first, cursor);
    var k := if cursor < first then 0 else if cursor - first >= |events| then |events| else cursor - first + 1;
    SliceOfTail(log, |events|, k);
  }

  /** Polling gives exactly the next stretch of the history: from the cursor, or from the oldest one retained. */
  lemma PollIsLogSlice(nextId: nat, events: seq<Record>, maxSize: nat, log: seq<Record>, cursor: nat, limit: nat)
    requires Follows(nextId, events, maxSize, log)
    ensures var from := Reachable(cursor, |events|, log);
            var to := if |log| - from <= limit then |log| else from + limit;
            Take(After(events, cursor), limit) == log[from..to]
  {
    hide After;
    RetainedAfter(events, log, cursor);
  }

  // ----- A client that keeps polling from its last id -----

  /** What the system looks like to one client: the pushes so far, its cursor, what it was given, what it missed. */
  datatype Session = Session(log: seq<Record>, cursor: nat, given: seq<Record>, missed: set<nat>)

  datatype Action = Pushed(record: Record) | Polled(limit: nat)

  function Advance(cursor: nat, got: seq<Record>): nat
  {
    if got == [] then cursor else got[|got| - 1].id
  }

  function Ids(first: nat, end: nat): (ids: set<nat>)
    ensures forall id: nat :: id in ids <==> first <= id < end
    decreases end
  {
    if first >= end then {} else Ids(first, end - 1) + {end - 1}
  }

  /** The ids a client skips when it is given records: those between its cursor and the first of them. */
  function Skipped(cursor: nat, got: seq<Record>): set<nat>
  {
    if got == [] then {} else Ids(cursor + 1, got[0].id)
  }

  function Next(s: Session, a: Action, maxSize: nat): Session
  {
    match a
    case Pushed(record) => s.(log := s.log + [record])
    case Polled(limit) =>
      var got := Take(After(Last(s.log, maxSize), s.cursor), limit);
      s.(cursor := Advance(s.cursor, got), given := s.given + got, missed := s.missed + Skipped(s.cursor, got))
  }

  /** The ids of records a client was given so far. */
  function GivenIds(given: seq<Record>): set<nat>
  {
    set i | 0 <= i < |given| :: given[i].id
  }

  ghost predicate InOrder(given: seq<Record>)
  {
    forall i, j | 0 <= i < j < |given| :: given[i].id < given[j].id
  }

  ghost predicate FromLog(given: seq<Record>, log: seq<Record>)
  {
    forall i | 0 <= i < |given| :: 1 <= given[i].id <= |log| && given[i] == log[given[i].id - 1]
  }

  /**
    Given records come from the history, in order and each once; every id up to
    the cursor was either given or missed, never both.
  */
  ghost predicate Fair(s: Session)
  {
    && IsLog(s.log) && s.cursor <= |s.log| && FromLog(s.given, s.log) && InOrder(s.given)
    && GivenIds(s.given) + s.missed == Ids(1, s.cursor + 1) && GivenIds(s.given) !! s.missed
  }

  /** Only events already evicted when the client polled are missed. */
  lemma MissedWereEvicted(s: Session, limit: nat, maxSize: nat, id: nat)
    requires Fair(s) && id in Next(s, Polled(limit), maxSize).missed && id !in s.missed
    ensures 1 <= id <= |s.log| - |Last(s.log, maxSize)|
  {
    hide After, Take;
    PollIsLogSlice(|s.log| + 1, Last(s.log, maxSize), maxSize, s.log, s.cursor, limit);
  }

  /** A stretch of the history, as given records. */
  lemma SliceIds(log: seq<Record>, from: nat, to: nat)
    requires IsLog(log) && from <= to <= |log|
    ensures GivenIds(log[from..to]) == Ids(from + 1, to + 1)
    ensures FromLog(log[from..to], log) && InOrder(log[from..to])
    ensures from < to ==> log[from..to][0].id == from + 1 && log[from..to][to - from - 1].id == to
  {
    var got := log[from..to];
    assert forall i | 0 <= i < |got| :: got[i] == log[from + i] && got[i].id == from + i + 1;
    forall id | id in Ids(from + 1, to + 1) ensures id in GivenIds(got) {
      assert got[id - from - 1].id == id;
    }
  }

  lemma GivenAppend(given: seq<Record>, got: seq<Record>)
    ensures GivenIds(given + got) == GivenIds(given) + GivenIds(got)
  {
    forall id | id in GivenIds(given) + GivenIds(got) ensures id in GivenIds(given + got) {
      if id in GivenIds(given) {
        var i :| 0 <= i < |given| && given[i].id == id;
        assert (given + got)[i].id == id;
      } else {
        var i :| 0 <= i < |got| && got[i].id == id;
        assert (given + got)[|given| + i].id == id;
      }
    }
  }

  lemma InOrderAppend(given: seq<Record>, got: seq<Record>, c: nat)
    requires InOrder(given) && InOrder(got) && (forall e | e in given :: e.id <= c) && forall e | e in got :: e.id > c
    ensures InOrder(given + got)
  {
    forall i, j | 0 <= i < j < |given + got| ensures (given + got)[i].id < (given + got)[j].id {
      if i < |given| <= j {
        assert given[i] in given && got[j - |given|] in got;
      }
    }
  }

  lemma FromLogAppend(given: seq<Record>, got: seq<Record>, log: seq<Record>)
    requires FromLog(given, log) && FromLog(got, log)
    ensures FromLog(given + got, log)
  {
  }

  lemma IdsSplit(a: nat, b: nat, c: nat)
    requires a <= b <= c
    ensures Ids(a, c) == Ids(a, b) + Ids(b, c) && Ids(a, b) !! Ids(b, c)
  {
  }

  /** Being given the history from `from` to `to`, having skipped what lies before it. */
  lemma GainKeepsFair(s: Session, from: nat, to: nat)
    requires Fair(s) && s.cursor <= from < to <= |s.log|
    ensures Fair(Session(s.log, to, s.given + s.log[from..to], s.missed + Ids(s.cursor + 1, from + 1)))
  {
    hide InOrder, FromLog, GivenIds, Ids, IsLog;
    var got, c := s.log[from..to], s.cursor;
    SliceIds(s.log, from, to);
    GivenAppend(s.given, got);
    FromLogAppend(s.given, got, s.log);
    IdsSplit(1, c + 1, from + 1);
    IdsSplit(1, from + 1, to + 1);
    assert forall id | id in GivenIds(s.given) :: id in Ids(1, c + 1);
    GivenBy(s.given);
    GivenBy(got);
    BelowEnd(1, c + 1);
    BelowEnd(from + 1, to + 1);
    InOrderAppend(s.given, got, c);
  }

  lemma GivenBy(given: seq<Record>)
    ensures forall e | e in given :: e.id in GivenIds(given)
  {
  }

  lemma BelowEnd(first: nat, end: nat)
    ensures forall id: nat | id in Ids(first, end) :: first <= id < end
  {
  }

  lemma PollKeepsFair(s: Session, limit: nat, maxSize: nat)
    requires Fair(s)
    ensures Fair(Next(s, Polled(limit), maxSize))
  {
    hide After, Take, Last, InOrder, FromLog, GivenIds, Ids;
    var events := LastOf(s, maxSize);
    PollIsLogSlice(|s.log| + 1, events, maxSize, s.log, s.cursor, limit);
    var from := Reachable(s.cursor, |events|, s.log);
    var to := if |s.log| - from <= limit then |s.log| else from + limit;
    var got := s.log[from..to];
    if from < to {
      assert got[0].id == from + 1 && got[|got| - 1].id == to;
      GainKeepsFair(s, from, to);
    } else {
      assert got == [] && s.given + [] == s.given && s.missed + {} == s.missed;
    }
  }

  function LastOf(s: Session, maxSize: nat): (events: seq<Record>)
    ensures events == Last(s.log, maxSize) && |events| <= |s.log|
    ensures IsLog(s.log) ==> Follows(|s.log| + 1, events, maxSize, s.log)
  {
    Last(s.log, maxSize)
  }

  /** Every run: a client that keeps polling sees every retained event once, in order, and misses only evicted ones. */
  lemma {:induction false} RunIsFair(states: seq<Session>, actions: seq<Action>, maxSize: nat, k: nat)
    requires |states| == |actions| + 1 && k <= |actions|
    requires states[0] == Session([], 0, [], {})
    requires forall i | 0 <= i < |actions| ::
               && (actions[i].Pushed? ==> actions[i].record.id == |states[i].log| + 1)
               && states[i + 1] == Next(states[i], actions[i], maxSize)
    ensures Fair(states[k])
  {
    if k > 0 {
      RunIsFair(states, actions, maxSize, k - 1);
      match actions[k - 1]
      case Pushed(record) =>
      case Polled(limit) => PollKeepsFair(states[k - 1], limit, maxSize);
    }
  }

  // ----- Interleaved pushes -----

  /** A push takes its id first and inserts its record later; the halves of several pushes may interleave. */
  datatype Half = Allocating | Inserting(record: Record)

  /** The next id after some halves. */
  function NextId(halves: seq<Half>): nat
  {
    if halves == [] then 1
    else NextId(halves[..|halves| - 1]) + if halves[|halves| - 1].Allocating? then 1 else 0
  }

  /** Ids that were taken and not yet inserted. */
  function Pending(halves: seq<Half>): set<nat>
  {
    if halves == [] then {}
    else
      var init := halves[..|halves| - 1];
      match halves[|halves| - 1]
      case Allocating => Pending(init) + {NextId(init)}
      case Inserting(record) => Pending(init) - {record.id}
  }

  /** The records in the order of their insertion. */
  function Inserted(halves: seq<Half>): seq<Record>
  {
    if halves == [] then []
    else
      var init := halves[..|halves| - 1];
      match halves[|halves| - 1]
      case Allocating => Inserted(init)
      case Inserting(record) => Inserted(init) + [record]
  }

  /** Every insertion is the second half of a push whose id was taken. */
  ghost predicate Possible(halves: seq<Half>)
  {
    halves == [] ||
    (var init, last := halves[..|halves| - 1], halves[|halves| - 1];
     Possible(init) && (last.Inserting? ==> last.record.id in Pending(init)))
  }

  lemma HalvesNext(halves: seq<Half>, half: Half)
    ensures var after := halves + [half];
            && NextId(after) == NextId(halves) + (if half.Allocating? then 1 else 0)
            && Pending(after) ==
                 (if half.Allocating? then Pending(halves) + {NextId(halves)} else Pending(halves) - {half.record.id})
            && Inserted(after) == (if half.Allocating? then Inserted(halves) else Inserted(halves) + [half.record])
            && (Possible(after) <==> Possible(halves) && (half.Inserting? ==> half.record.id in Pending(halves)))
  {
    assert (halves + [half])[..|halves|] == halves;
  }

  ghost predicate Unique(events: seq<Record>)
  {
    forall i, j | 0 <= i < j < |events| :: events[i].id != events[j].id
  }

  ghost predicate Known(events: seq<Record>, nextId: nat, pending: set<nat>)
  {
    forall e | e in events :: 1 <= e.id < nextId && e.id !in pending
  }

  lemma AppendKeepsUnique(events: seq<Record>, record: Record)
    requires Unique(events) && forall e | e in events :: e.id != record.id
    ensures Unique(events + [record])
  {
  }

  lemma LastKeeps(all: seq<Record>, n: nat)
    ensures Unique(all) ==> Unique(Last(all, n))
    ensures forall e | e in Last(all, n) :: e in all
  {
  }

  /** Ids are below the next one, and the inserted ones unique and no longer pending, in every interleaving. */
  lemma {:induction false} PendingIsBelow(halves: seq<Half>)
    requires Possible(halves)
    ensures NextId(halves) >= 1 && forall id | id in Pending(halves) :: 1 <= id < NextId(halves)
    ensures Known(Inserted(halves), NextId(halves), Pending(halves)) && Unique(Inserted(halves))
  {
    if halves != [] {
      var init := halves[..|halves| - 1];
      PendingIsBelow(init);
      if halves[|halves| - 1].Inserting? {
        hide Unique;
        AppendKeepsUnique(Inserted(init), halves[|halves| - 1].record);
      }
    }
  }

  /** However pushes interleave, retained ids stay unique and below the next one, and the ring within its bound. */
  lemma InterleavedRun(halves: seq<Half>, maxSize: nat)
    requires Possible(halves)
    ensures var events := Last(Inserted(halves), maxSize);
            Unique(events) && Known(events, NextId(halves), Pending(halves)) && |events| <= maxSize
  {
    PendingIsBelow(halves);
    LastKeeps(Inserted(halves), maxSize);
    LastIsSuffix(Inserted(halves), maxSize);
  }

  // ----- Paging while pushes interleave -----

  /** One client: the id it pages from, and what it was given so far. */
  datatype Reader = Reader(cursor: nat, given: seq<Record>)

  datatype Turn = Pushing(half: Half) | Polling(limit: nat)

  /** The halves of pushes among some turns. */
  function Pushes(turns: seq<Turn>): seq<Half>
  {
    if turns == [] then []
    else
      var last := turns[|turns| - 1];
      Pushes(turns[..|turns| - 1]) + if last.Pushing? then [last.half] else []
  }

  /** The ring after some turns. */
  function RingAfter(turns: seq<Turn>, maxSize: nat): seq<Record>
  {
    Last(Inserted(Pushes(turns)), maxSize)
  }

  /** A client that keeps polling from its last id, after some turns. */
  function ReaderAfter(turns: seq<Turn>, maxSize: nat): Reader
  {
    if turns == [] then Reader(0, [])
    else
      var init, last := turns[..|turns| - 1], turns[|turns| - 1];
      var r := ReaderAfter(init, maxSize);
      if last.Pushing? then r
      else
        var got := Take(After(RingAfter(init, maxSize), r.cursor), last.limit);
        Reader(Advance(r.cursor, got), r.given + got)
  }

  /**
    The client was given inserted records only, in id order and so each once, and
    every retained record was given or is still ahead of the cursor.
  */
  ghost predicate FairTo(r: Reader, inserted: seq<Record>, ring: seq<Record>)
  {
    && (forall e | e in r.given :: e in inserted && e.id <= r.cursor) && InOrder(r.given)
    && forall e | e in ring :: e in r.given || e.id > r.cursor
  }

  ghost predicate FairAt(turns: seq<Turn>, maxSize: nat, k: nat)
    requires k <= |turns|
  {
    FairTo(ReaderAfter(turns[..k], maxSize), Inserted(Pushes(turns[..k])), RingAfter(turns[..k], maxSize))
  }

  lemma {:induction false} AfterMembers(s: seq<Record>, since: nat)
    ensures forall e :: e in After(s, since) <==> e in s && e.id > since
  {
    if s != [] {
      AfterMembers(s[1..], since);
      assert s == [s[0]] + s[1..];
    }
  }

  lemma OrderTail(s: seq<Record>)
    requires s != [] && InOrder(s)
    ensures InOrder(s[1..]) && forall e | e in s[1..] :: s[0].id < e.id
  {
    forall e | e in s[1..] ensures s[0].id < e.id {
      var i :| 0 <= i < |s[1..]| && s[1..][i] == e;
      assert s[i + 1] == e;
    }
  }

  lemma {:induction false} AfterInOrder(s: seq<Record>, since: nat)
    requires InOrder(s)
    ensures InOrder(After(s, since))
  {
    if s != [] {
      OrderTail(s);
      AfterInOrder(s[1..], since);
      AfterMembers(s[1..], since);
      InOrderAppend([s[0]], After(s[1..], since), s[0].id);
    }
  }

  lemma LastInOrder(all: seq<Record>, n: nat)
    requires InOrder(all)
    ensures InOrder(Last(all, n))
  {
  }

  /** The first records of an ordered list: the others are beyond the last of them. */
  lemma TakeInOrder(s: seq<Record>, n: nat)
    requires InOrder(s)
    ensures InOrder(Take(s, n)) && forall e | e in Take(s, n) :: e in s
    ensures Take(s, n) != [] ==>
              var top := Take(s, n)[|Take(s, n)| - 1].id;
              (forall e | e in Take(s, n) :: e.id <= top) && forall e | e in s :: e in Take(s, n) || e.id > top
  {
    var got := Take(s, n);
    var rest := s[|got|..];
    assert s == got + rest;
    if got != [] {
      EndIsTop(got);
      forall e | e in rest ensures e.id > got[|got| - 1].id {
        var i :| 0 <= i < |rest| && rest[i] == e;
        assert s[|got| - 1].id < s[|got| + i].id;
      }
    }
  }

  lemma EndIsTop(s: seq<Record>)
    requires InOrder(s) && s != []
    ensures forall e | e in s :: e.id <= s[|s| - 1].id
  {
    forall e | e in s ensures e.id <= s[|s| - 1].id {
      var i :| 0 <= i < |s| && s[i] == e;
      assert i == |s| - 1 || s[i].id < s[|s| - 1].id;
    }
  }

  /** A poll of an ordered ring skips nothing. */
  lemma PollKeepsFairTo(r: Reader, inserted: seq<Record>, ring: seq<Record>, limit: nat)
    requires FairTo(r, inserted, ring) && InOrder(ring) && forall e | e in ring :: e in inserted
    ensures var got := Take(After(ring, r.cursor), limit);
            FairTo(Reader(Advance(r.cursor, got), r.given + got), inserted, ring)
  {
    AfterMembers(ring, r.cursor);
    AfterInOrder(ring, r.cursor);
    var ahead := After(ring, r.cursor);
    TakeInOrder(ahead, limit);
    var got := Take(ahead, limit);
    InOrderAppend(r.given, got, r.cursor);
    hide After, Take, InOrder;
    if got != [] {
      assert got[|got| - 1] in got;
    }
  }

  /** An insertion above everything inserted before hides nothing. */
  lemma InsertKeepsFairTo(r: Reader, inserted: seq<Record>, ring: seq<Record>, record: Record, n: nat)
    requires FairTo(r, inserted, ring) && record.id > r.cursor
    ensures FairTo(r, inserted + [record], Last(ring + [record], n))
  {
    LastKeeps(ring + [record], n);
  }

  lemma PushesNext(turns: seq<Turn>, turn: Turn)
    ensures Pushes(turns + [turn]) == if turn.Pushing? then Pushes(turns) + [turn.half] else Pushes(turns)
  {
    assert (turns + [turn])[..|turns|] == turns;
  }

  /** The cursor is where a client starts or the id of a record inserted before. */
  ghost predicate CursorKnown(cursor: nat, inserted: seq<Record>)
  {
    cursor == 0 || exists e | e in inserted :: e.id == cursor
  }

  lemma {:induction false} CursorIsKnown(turns: seq<Turn>, maxSize: nat)
    ensures CursorKnown(ReaderAfter(turns, maxSize).cursor, Inserted(Pushes(turns)))
  {
    hide After, Take, Inserted, Pushes, Last;
    if turns != [] {
      var init, last := turns[..|turns| - 1], turns[|turns| - 1];
      CursorIsKnown(init, maxSize);
      InsertedGrows(init, last);
      assert turns == init + [last];
      var before, r := Inserted(Pushes(init)), ReaderAfter(init, maxSize);
      if last.Pushing? {
        KnownGrows(r.cursor, before, Inserted(Pushes(turns)));
      } else {
        PolledIsKnown(before, maxSize, r.cursor, last.limit);
      }
    }
  }

  lemma KnownGrows(cursor: nat, before: seq<Record>, after: seq<Record>)
    requires CursorKnown(cursor, before) && before <= after
    ensures CursorKnown(cursor, after)
  {
    if e :| e in before && e.id == cursor {
      assert e in after[..|before|];
    }
  }

  lemma PolledIsKnown(inserted: seq<Record>, maxSize: nat, cursor: nat, limit: nat)
    requires CursorKnown(cursor, inserted)
    ensures CursorKnown(Advance(cursor, Take(After(Last(inserted, maxSize), cursor), limit)), inserted)
  {
    LastKeeps(inserted, maxSize);
    AfterMembers(Last(inserted, maxSize), cursor);
    hide After, Last;
    var ahead := After(Last(inserted, maxSize), cursor);
    var got := Take(ahead, limit);
    if got != [] { assert got[|got| - 1] in ahead; }
  }

  lemma InsertedGrows(turns: seq<Turn>, turn: Turn)
    ensures Inserted(Pushes(turns + [turn])) ==
            if turn.Pushing? && turn.half.Inserting? then Inserted(Pushes(turns)) + [turn.half.record]
                else Inserted(Pushes(turns))
  {
    PushesNext(turns, turn);
    if turn.Pushing? { HalvesNext(Pushes(turns), turn.half); }
  }

  lemma OrderInit(s: seq<Record>, e: Record)
    requires InOrder(s + [e])
    ensures InOrder(s) && forall x | x in s :: x.id < e.id
  {
    var all := s + [e];
    assert forall i | 0 <= i < |s| :: all[i] == s[i];
    assert all[|s|] == e;
  }

  /** With records inserted in id order, every schedule of polls is fair. */
  lemma {:induction false} OrderedIsFair(turns: seq<Turn>, maxSize: nat)
    requires InOrder(Inserted(Pushes(turns))) && forall e | e in Inserted(Pushes(turns)) :: e.id >= 1
    ensures FairTo(ReaderAfter(turns, maxSize), Inserted(Pushes(turns)), RingAfter(turns, maxSize))
  {
    hide InOrder, After, Take, FairTo, Inserted, Pushes, Last;
    if turns != [] {
      var init, last := turns[..|turns| - 1], turns[|turns| - 1];
      var before, r := Inserted(Pushes(init)), ReaderAfter(init, maxSize);
      assert turns == init + [last];
      InsertedGrows(init, last);
      if last.Pushing? && last.half.Inserting? {
        var record := last.half.record;
        assert record in before + [record] && forall e | e in before :: e in before + [record];
        OrderInit(before, record);
        OrderedIsFair(init, maxSize);
        CursorIsKnown(init, maxSize);
        LastAppend(before, record, maxSize);
        InsertKeepsFairTo(r, before, RingAfter(init, maxSize), record, maxSize);
      } else {
        OrderedIsFair(init, maxSize);
        LastKeeps(before, maxSize);
        LastInOrder(before, maxSize);
        if last.Polling? { PollKeepsFairTo(r, before, RingAfter(init, maxSize), last.limit); }
      }
    } else {
      NothingIsFair(maxSize);
    }
  }

  lemma NothingIsFair(maxSize: nat)
    ensures FairTo(Reader(0, []), Inserted(Pushes([])), RingAfter([], maxSize))
  {
  }

  lemma {:induction false} AfterIsShorter(s: seq<Record>, since: nat)
    ensures |After(s, since)| <= |s|
  {
    if s != [] { AfterIsShorter(s[1..], since); }
  }

  /** A poll with room for the whole ring takes everything ahead of the cursor. */
  lemma WholePoll(ring: seq<Record>, cursor: nat, limit: nat)
    requires |ring| <= limit
    ensures Take(After(ring, cursor), limit) == After(ring, cursor)
  {
    AfterIsShorter(ring, cursor);
  }

  /** And then such a poll leaves no retained record to give. */
  lemma OrderedCatchesUp(turns: seq<Turn>, maxSize: nat, limit: nat)
    requires InOrder(Inserted(Pushes(turns))) && (forall e | e in Inserted(Pushes(turns)) :: e.id >= 1) &&
        limit >= maxSize
    ensures forall e | e in RingAfter(turns, maxSize) :: e in ReaderAfter(turns + [Polling(limit)], maxSize).given
  {
    OrderedIsFair(turns, maxSize);
    var r, ring := ReaderAfter(turns, maxSize), RingAfter(turns, maxSize);
    LastIsSuffix(Inserted(Pushes(turns)), maxSize);
    WholePoll(ring, r.cursor, limit);
    AfterMembers(ring, r.cursor);
    hide After, Take, RingAfter, InOrder;
    assert (turns + [Polling(limit)])[..|turns|] == turns;
  }

  lemma {:induction false} InsertedPrefix(turns: seq<Turn>, k: nat)
    requires k <= |turns|
    ensures Inserted(Pushes(turns[..k])) <= Inserted(Pushes(turns))
    decreases |turns|
  {
    if k == |turns| {
      assert turns[..k] == turns;
    } else {
      var init, last := turns[..|turns| - 1], turns[|turns| - 1];
      assert init[..k] == turns[..k] && turns == init + [last];
      InsertedPrefix(init, k);
      InsertedGrows(init, last);
    }
  }

  /** Turns without a poll. */
  function OnlyPushes(halves: seq<Half>): (turns: seq<Turn>)
    ensures |turns| == |halves|
  {
    seq(|halves|, i requires 0 <= i < |halves| => Pushing(halves[i]))
  }

  lemma {:induction false} OnlyPushesRead(halves: seq<Half>, maxSize: nat)
    ensures Pushes(OnlyPushes(halves)) == halves && ReaderAfter(OnlyPushes(halves), maxSize) == Reader(0, [])
  {
    if halves != [] {
      var init, last := halves[..|halves| - 1], halves[|halves| - 1];
      OnlyPushesRead(init, maxSize);
      assert OnlyPushes(halves) == OnlyPushes(init) + [Pushing(last)] && halves == init + [last];
      assert OnlyPushes(halves)[..|init|] == OnlyPushes(init);
    }
  }

  lemma {:induction false} PushesConcat(a: seq<Turn>, b: seq<Turn>)
    ensures Pushes(a + b) == Pushes(a) + Pushes(b)
    decreases |b|
  {
    if b == [] {
      assert a + b == a;
    } else {
      var init, last := b[..|b| - 1], b[|b| - 1];
      assert a + b == (a + init) + [last] && b == init + [last];
      PushesConcat(a, init);
      PushesNext(a + init, last);
      PushesNext(init, last);
    }
  }

  /** Where the order of insertion first breaks: below the last record inserted before. */
  ghost predicate BreaksOrderAt(halves: seq<Half>, q: nat)
  {
    && q < |halves| && halves[q].Inserting?
    && var before := Inserted(halves[..q]);
       InOrder(before) && before != [] && before[|before| - 1].id > halves[q].record.id
  }

  lemma {:induction false} OrderBreaks(halves: seq<Half>)
    requires Possible(halves) && !InOrder(Inserted(halves))
    ensures exists q: nat :: BreaksOrderAt(halves, q)
  {
    var init, last := halves[..|halves| - 1], halves[|halves| - 1];
    assert halves == init + [last];
    HalvesNext(init, last);
    if !InOrder(Inserted(init)) {
      OrderBreaks(init);
      var q: nat :| BreaksOrderAt(init, q);
      assert halves[..q] == init[..q];
      assert BreaksOrderAt(halves, q);
    } else {
      PendingIsBelow(halves);
      BreakIsAtEnd(Inserted(init), last.record);
      assert BreaksOrderAt(halves, |init|);
    }
  }

  lemma BreakIsAtEnd(before: seq<Record>, record: Record)
    requires InOrder(before) && !InOrder(before + [record]) && Unique(before + [record])
    ensures before != [] && before[|before| - 1].id > record.id
  {
    var all, top := before + [record], |before| - 1;
    var i, j :| 0 <= i < j < |all| && all[i].id >= all[j].id;
    assert forall k | 0 <= k < |before| :: all[k] == before[k];
    assert j == |before|;
    assert i == top || before[i].id < before[top].id;
    assert all[top].id != all[|before|].id;
  }

  /** The turns of `halves` with one poll before half number `q`. */
  function PolledAt(halves: seq<Half>, q: nat, limit: nat): seq<Turn>
    requires q <= |halves|
  {
    OnlyPushes(halves[..q]) + [Polling(limit)] + OnlyPushes(halves[q..])
  }

  lemma PolledAtPushes(halves: seq<Half>, q: nat, limit: nat)
    requires q <= |halves|
    ensures Pushes(PolledAt(halves, q, limit)) == halves
  {
    var early, late := halves[..q], halves[q..];
    assert halves == early + late;
    OnlyPushesRead(early, 0);
    OnlyPushesRead(late, 0);
    PushesNext(OnlyPushes(early), Polling(limit));
    PushesConcat(OnlyPushes(early) + [Polling(limit)], OnlyPushes(late));
  }

  /** A poll just before the order breaks hides the record that breaks it. */
  lemma BreakIsUnfair(halves: seq<Half>, q: nat, maxSize: nat)
    requires Possible(halves) && maxSize >= 1 && BreaksOrderAt(halves, q)
    ensures q + 2 <= |PolledAt(halves, q, maxSize)| && !FairAt(PolledAt(halves, q, maxSize), maxSize, q + 2)
  {
    hide InOrder, Possible, Pushes, Inserted, ReaderAfter, RingAfter, FairTo, Pending;
    var turns := PolledAt(halves, q, maxSize);
    PrefixIsPossible(halves, q + 1);
    assert halves[..q + 1] == halves[..q] + [halves[q]];
    HalvesNext(halves[..q], halves[q]);
    ReaderSkips(halves[..q], halves[q].record, maxSize);
    assert turns[..q + 2] == OnlyPushes(halves[..q]) + [Polling(maxSize)] + [Pushing(halves[q])];
  }

  lemma {:induction false} PrefixIsPossible(halves: seq<Half>, q: nat)
    requires Possible(halves) && q <= |halves|
    ensures Possible(halves[..q])
    decreases |halves|
  {
    if q == |halves| {
      assert halves[..q] == halves;
    } else {
      assert halves[..|halves| - 1][..q] == halves[..q];
      PrefixIsPossible(halves[..|halves| - 1], q);
    }
  }

  /** A client's first poll takes the whole ring and puts its cursor at the newest record. */
  lemma FirstPoll(early: seq<Half>, maxSize: nat)
    requires Possible(early) && maxSize >= 1 && InOrder(Inserted(early)) && Inserted(early) != []
    ensures var r := ReaderAfter(OnlyPushes(early) + [Polling(maxSize)], maxSize);
            r.cursor >= Inserted(early)[|Inserted(early)| - 1].id && forall e | e in r.given :: e in Inserted(early)
  {
    hide After, Take, Last, InOrder, Inserted, Pushes, Unique, OnlyPushes, Pending, Possible;
    var before, start := Inserted(early), OnlyPushes(early);
    var newest, ring := before[|before| - 1], Last(before, maxSize);
    assert (start + [Polling(maxSize)])[..|start|] == start;
    OnlyPushesRead(early, maxSize);
    PendingIsBelow(early);
    assert newest in before;
    NewestIsRetained(before, maxSize);
    LastIsSuffix(before, maxSize);
    LastInOrder(before, maxSize);
    LastKeeps(before, maxSize);
    WholePoll(ring, 0, maxSize);
    AfterMembers(ring, 0);
    AfterInOrder(ring, 0);
    TakeInOrder(After(ring, 0), maxSize);
    assert newest in After(ring, 0);
  }

  lemma NewestIsRetained(all: seq<Record>, n: nat)
    requires all != [] && n >= 1
    ensures all[|all| - 1] in Last(all, n)
  {
    assert Last(all, n)[|Last(all, n)| - 1] == all[|all| - 1];
  }

  lemma ReaderSkips(early: seq<Half>, record: Record, maxSize: nat)
    requires Possible(early) && record.id in Pending(early) && maxSize >= 1 && InOrder(Inserted(early))
    requires Inserted(early) != [] && Inserted(early)[|Inserted(early)| - 1].id > record.id
    ensures var upTo := OnlyPushes(early) + [Polling(maxSize)] + [Pushing(Inserting(record))];
            !FairTo(ReaderAfter(upTo, maxSize), Inserted(Pushes(upTo)), RingAfter(upTo, maxSize))
  {
    hide InOrder, Inserted, Pushes, Last;
    var before, polled := Inserted(early), OnlyPushes(early) + [Polling(maxSize)];
    var upTo := polled + [Pushing(Inserting(record))];
    OnlyPushesRead(early, maxSize);
    InsertedGrows(OnlyPushes(early), Polling(maxSize));
    InsertedGrows(polled, Pushing(Inserting(record)));
    FirstPoll(early, maxSize);
    assert upTo[..|polled|] == polled;
    PendingIsBelow(early);
    NewestIsRetained(before + [record], maxSize);
    assert record !in before && record in RingAfter(upTo, maxSize);
  }

  /**
    Exactly when paging is fair while pushes interleave: every client under every
    schedule of polls is given inserted records once and in order, and every
    retained record is given or still ahead of its cursor, if and only if the
    records are inserted in the order of their ids.
  */
  lemma PagingIsFairIff(halves: seq<Half>, maxSize: nat)
    requires Possible(halves) && maxSize >= 1
    ensures (forall turns, k: nat | Pushes(turns) == halves && k <= |turns| :: FairAt(turns, maxSize, k))
            <==> InOrder(Inserted(halves))
  {
    if InOrder(Inserted(halves)) {
      PendingIsBelow(halves);
      forall turns, k: nat | Pushes(turns) == halves && k <= |turns| ensures FairAt(turns, maxSize, k) {
        InsertedPrefix(turns, k);
        PrefixInOrder(Inserted(Pushes(turns[..k])), Inserted(halves));
        OrderedIsFair(turns[..k], maxSize);
      }
    } else {
      OrderBreaks(halves);
      var q: nat :| BreaksOrderAt(halves, q);
      PolledAtPushes(halves, q, maxSize);
      BreakIsUnfair(halves, q, maxSize);
    }
  }

  lemma PrefixInOrder(a: seq<Record>, b: seq<Record>)
    requires a <= b && InOrder(b)
    ensures InOrder(a) && forall e | e in a :: e in b
  {
  }

  lemma LaterFirst(late: Record)
    requires late.id == 2
    ensures var halves := [Allocating, Allocating, Inserting(late)];
            Possible(halves) && Pending(halves) == {1} && Inserted(halves) == [late]
  {
    var none: seq<Half> := [];
    var one, two := none + [Allocating], none + [Allocating] + [Allocating];
    HalvesNext(none, Allocating);
    HalvesNext(one, Allocating);
    HalvesNext(two, Inserting(late));
    assert two + [Inserting(late)] == [Allocating, Allocating, Inserting(late)];
    assert Pending(two) == {1, 2} && Inserted(two) == [];
  }

  /**
    The shortest unfair interleaving: two ids taken, the later one inserted first, and
    a client that polls in between.
  */
  lemma InterleavingHidesARecord(early: Record, late: Record, maxSize: nat)
    requires early.id == 1 && late.id == 2 && maxSize >= 1
    ensures var halves := [Allocating, Allocating, Inserting(late), Inserting(early)];
            && Possible(halves) && Pushes(PolledAt(halves, 3, maxSize)) == halves
            && 5 <= |PolledAt(halves, 3, maxSize)| && !FairAt(PolledAt(halves, 3, maxSize), maxSize, 5)
  {
    var three := [Allocating, Allocating, Inserting(late)];
    var halves := [Allocating, Allocating, Inserting(late), Inserting(early)];
    LaterFirst(late);
    assert halves == three + [Inserting(early)] && halves[..3] == three;
    assert InOrder([late]);
    hide Possible, Pending, Inserted, InOrder, Pushes, PolledAt, FairAt;
    HalvesNext(three, Inserting(early));
    PolledAtPushes(halves, 3, maxSize);
    BreakIsUnfair(halves, 3, maxSize);
  }
}
