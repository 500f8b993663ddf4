/**
  The inactivity sweep of the chat-room server: every participant whose last
  status ping is older than the staleness window is removed from the
  `participants` collection, and one "left the room" status message per removed
  participant is appended to the `messages` collection.

  The two document-store collections are modelled as sequences held by a class,
  `ChatDb`; the store queries are modelled by the pure functions `Inactive`
  (the `find` with `lastStatus < cutoff`) and `Remaining` (what `deleteMany`
  with the same filter leaves behind). The clock reading and the formatted
  time are parameters of the sweep.
 */
module FilterInactiveParticipants {

  /** A document of the `participants` collection. */
  datatype Participant = Participant(name: string, lastStatus: int)

  /** A document of the `messages` collection; `kind` is the document's `type` field. */
  datatype Message = Message(from: string, to: string, text: string, kind: string, time: string)

  /** The two collections the sweep reads and writes, as a value. */
  datatype Store = Store(participants: seq<Participant>, messages: seq<Message>)

  const EVERYONE: string := "Todos"
  const LEAVE_TEXT: string := "sai da sala..."
  const STATUS_KIND: string := "status"

  /** The threshold below which a participant's last ping counts as stale. */
  function Cutoff(now: int, msStatus: int): int
  {
    now - msStatus
  }

  /** The store filter `{ lastStatus: { $lt: cutoff } }`. */
  predicate IsInactive(p: Participant, cutoff: int)
  {
    p.lastStatus < cutoff
  }

  /** What `find` with the inactivity filter returns: the matching documents, in store order. */
  function Inactive(ps: seq<Participant>, cutoff: int): (r: seq<Participant>)
    ensures |r| <= |ps|
    ensures forall i :: 0 <= i < |r| ==> IsInactive(r[i], cutoff)
  {
    if ps == [] then []
    else if IsInactive(ps[0], cutoff) then [ps[0]] + Inactive(ps[1..], cutoff)
    else Inactive(ps[1..], cutoff)
  }

  /** What `deleteMany` with the inactivity filter leaves in the collection, in store order. */
  function Remaining(ps: seq<Participant>, cutoff: int): (r: seq<Participant>)
    ensures |r| <= |ps|
    ensures forall i :: 0 <= i < |r| ==> !IsInactive(r[i], cutoff)
  {
    if ps == [] then []
    else if IsInactive(ps[0], cutoff) then Remaining(ps[1..], cutoff)
    else [ps[0]] + Remaining(ps[1..], cutoff)
  }

  /**
    An independent description of a partition: `ps` is a merge of `a` and `b`
    that keeps the relative order of each, every element taken exactly once.
   */
  ghost predicate Interleaves(ps: seq<Participant>, a: seq<Participant>, b: seq<Participant>)
    decreases |ps|
  {
    if ps == [] then a == [] && b == []
    else
      (a != [] && a[0] == ps[0] && Interleaves(ps[1..], a[1..], b)) ||
      (b != [] && b[0] == ps[0] && Interleaves(ps[1..], a, b[1..]))
  }

  /** The found list and the survivors split the collection, each in store order. */
  lemma {:induction false} PartitionInterleaves(ps: seq<Participant>, cutoff: int)
    ensures Interleaves(ps, Inactive(ps, cutoff), Remaining(ps, cutoff))
  {
    if ps != [] {
      PartitionInterleaves(ps[1..], cutoff);
      if IsInactive(ps[0], cutoff) {
        assert Inactive(ps, cutoff)[1..] == Inactive(ps[1..], cutoff);
      } else {
        assert Remaining(ps, cutoff)[1..] == Remaining(ps[1..], cutoff);
      }
    }
  }

  /**
    The split is determined: any order-keeping split of the collection into
    stale and live participants is exactly the one the two filters compute.
   */
  lemma {:induction false} PartitionUnique(ps: seq<Participant>, cutoff: int, a: seq<Participant>, b: seq<Participant>)
    requires Interleaves(ps, a, b)
    requires forall i :: 0 <= i < |a| ==> IsInactive(a[i], cutoff)
    requires forall i :: 0 <= i < |b| ==> !IsInactive(b[i], cutoff)
    ensures a == Inactive(ps, cutoff) && b == Remaining(ps, cutoff)
  {
    if ps != [] {
      if IsInactive(ps[0], cutoff) {
        assert a != [] && a[0] == ps[0] && Interleaves(ps[1..], a[1..], b);
        assert forall i :: 0 <= i < |a[1..]| ==> IsInactive(a[1..][i], cutoff) by {
          forall i | 0 <= i < |a[1..]| ensures IsInactive(a[1..][i], cutoff) {
            assert a[1..][i] == a[i + 1];
          }
        }
        PartitionUnique(ps[1..], cutoff, a[1..], b);
        assert a == [a[0]] + a[1..];
      } else {
        assert b != [] && b[0] == ps[0] && Interleaves(ps[1..], a, b[1..]);
        assert forall i :: 0 <= i < |b[1..]| ==> !IsInactive(b[1..][i], cutoff) by {
          forall i | 0 <= i < |b[1..]| ensures !IsInactive(b[1..][i], cutoff) {
            assert b[1..][i] == b[i + 1];
          }
        }
        PartitionUnique(ps[1..], cutoff, a, b[1..]);
        assert b == [b[0]] + b[1..];
      }
    }
  }

  /** A merge keeps every element: lengths add up and nothing is duplicated or lost. */
  lemma {:induction false} InterleavesConserves(ps: seq<Participant>, a: seq<Participant>, b: seq<Participant>)
    requires Interleaves(ps, a, b)
    ensures |ps| == |a| + |b|
    ensures multiset(ps) == multiset(a) + multiset(b)
    decreases |ps|
  {
    if ps != [] {
      assert ps == [ps[0]] + ps[1..];
      if a != [] && a[0] == ps[0] && Interleaves(ps[1..], a[1..], b) {
        InterleavesConserves(ps[1..], a[1..], b);
        assert a == [a[0]] + a[1..];
      } else {
        InterleavesConserves(ps[1..], a, b[1..]);
        assert b == [b[0]] + b[1..];
      }
    }
  }

  /** `find` returns exactly the stale participants of the collection. */
  lemma {:induction false} InactiveMembership(ps: seq<Participant>, cutoff: int, p: Participant)
    ensures p in Inactive(ps, cutoff) <==> p in ps && IsInactive(p, cutoff)
  {
    if ps != [] {
      InactiveMembership(ps[1..], cutoff, p);
      assert ps == [ps[0]] + ps[1..];
    }
  }

  /** `deleteMany` keeps exactly the live participants of the collection. */
  lemma {:induction false} RemainingMembership(ps: seq<Participant>, cutoff: int, p: Participant)
    ensures p in Remaining(ps, cutoff) <==> p in ps && !IsInactive(p, cutoff)
  {
    if ps != [] {
      RemainingMembership(ps[1..], cutoff, p);
      assert ps == [ps[0]] + ps[1..];
    }
  }

  /** Nothing is stale exactly when the delete leaves the collection as it was. */
  lemma {:induction false} NoneInactiveKeepsAll(ps: seq<Participant>, cutoff: int)
    ensures Inactive(ps, cutoff) == [] <==> Remaining(ps, cutoff) == ps
  {
    PartitionInterleaves(ps, cutoff);
    InterleavesConserves(ps, Inactive(ps, cutoff), Remaining(ps, cutoff));
    if Inactive(ps, cutoff) == [] {
      AllLiveKept(ps, cutoff);
    }
  }

  /** A collection with no stale participant survives the delete unchanged. */
  lemma {:induction false} AllLiveKept(ps: seq<Participant>, cutoff: int)
    requires Inactive(ps, cutoff) == []
    ensures Remaining(ps, cutoff) == ps
  {
    if ps != [] {
      AllLiveKept(ps[1..], cutoff);
    }
  }

  /** The survivors of a sweep hold nothing the same filter would find again. */
  lemma {:induction false} RemainingHasNoInactive(ps: seq<Participant>, cutoff: int)
    ensures Inactive(Remaining(ps, cutoff), cutoff) == []
  {
    var r := Remaining(ps, cutoff);
    if Inactive(r, cutoff) != [] {
      var p := Inactive(r, cutoff)[0];
      InactiveMembership(r, cutoff, p);
      RemainingMembership(ps, cutoff, p);
      assert false;
    }
  }

  /** The status message the sweep builds for one removed participant. */
  function DepartureMessage(p: Participant, time: string): Message
  {
    Message(p.name, EVERYONE, LEAVE_TEXT, STATUS_KIND, time)
  }

  /** The batch handed to `insertMany`: one departure message per found participant, in order. */
  function DepartureMessages(found: seq<Participant>, time: string): (r: seq<Message>)
    ensures |r| == |found|
    ensures forall i :: 0 <= i < |r| ==>
      r[i].from == found[i].name && r[i].to == EVERYONE && r[i].text == LEAVE_TEXT &&
      r[i].kind == STATUS_KIND && r[i].time == time
  {
    if found == [] then []
    else [DepartureMessage(found[0], time)] + DepartureMessages(found[1..], time)
  }

  /** The whole sweep on the two collections, as one value-level step. */
  function Swept(s: Store, now: int, msStatus: int, time: string): Store
  {
    var cutoff := Cutoff(now, msStatus);
    var found := Inactive(s.participants, cutoff);
    if |found| < 1 then s
    else Store(Remaining(s.participants, cutoff), s.messages + DepartureMessages(found, time))
  }

  /** The messages a sweep added to the log, behind the ones already there. */
  function Appended(before: Store, after: Store): seq<Message>
  {
    if |before.messages| <= |after.messages| then after.messages[|before.messages|..] else []
  }

  /**
    After a sweep the participants are exactly the live ones, in their old order,
    and the log is the old log followed by one departure message per stale
    participant, in the order `find` returned them.
   */
  lemma SweptState(s: Store, now: int, msStatus: int, time: string)
    ensures Swept(s, now, msStatus, time).participants == Remaining(s.participants, Cutoff(now, msStatus))
    ensures Swept(s, now, msStatus, time).messages ==
      s.messages + DepartureMessages(Inactive(s.participants, Cutoff(now, msStatus)), time)
  {
    var cutoff := Cutoff(now, msStatus);
    if Inactive(s.participants, cutoff) == [] {
      AllLiveKept(s.participants, cutoff);
      assert s.messages + [] == s.messages;
    }
  }

  /** No participant left after a sweep is older than the cutoff. */
  lemma SweptRemovesInactive(s: Store, now: int, msStatus: int, time: string)
    ensures forall p :: p in Swept(s, now, msStatus, time).participants ==> !IsInactive(p, Cutoff(now, msStatus))
  {
    var cutoff := Cutoff(now, msStatus);
    SweptState(s, now, msStatus, time);
    forall p | p in Swept(s, now, msStatus, time).participants
      ensures !IsInactive(p, cutoff)
    {
      RemainingMembership(s.participants, cutoff, p);
    }
  }

  /**
    Every live participant survives a sweep unchanged and in its relative order:
    the old collection is a merge of the found list and the new collection.
   */
  lemma SweptKeepsLive(s: Store, now: int, msStatus: int, time: string)
    ensures forall p :: p in s.participants && !IsInactive(p, Cutoff(now, msStatus)) ==>
      p in Swept(s, now, msStatus, time).participants
    ensures Interleaves(s.participants, Inactive(s.participants, Cutoff(now, msStatus)),
      Swept(s, now, msStatus, time).participants)
  {
    var cutoff := Cutoff(now, msStatus);
    SweptState(s, now, msStatus, time);
    PartitionInterleaves(s.participants, cutoff);
    forall p | p in s.participants && !IsInactive(p, cutoff)
      ensures p in Swept(s, now, msStatus, time).participants
    {
      RemainingMembership(s.participants, cutoff, p);
    }
  }

  /**
    A sweep only appends: the old log is a prefix of the new one, and the
    messages added are one departure per stale participant, in order.
   */
  lemma SweptAppendsOnly(s: Store, now: int, msStatus: int, time: string)
    ensures s.messages <= Swept(s, now, msStatus, time).messages
    ensures Appended(s, Swept(s, now, msStatus, time)) ==
      DepartureMessages(Inactive(s.participants, Cutoff(now, msStatus)), time)
  {
  }

  /** Every participant the sweep removes is accounted for by one appended message. */
  lemma SweptConserves(s: Store, now: int, msStatus: int, time: string)
    ensures |s.participants| ==
      |Swept(s, now, msStatus, time).participants| + |Appended(s, Swept(s, now, msStatus, time))|
  {
    var cutoff := Cutoff(now, msStatus);
    SweptAppendsOnly(s, now, msStatus, time);
    SweptState(s, now, msStatus, time);
    PartitionInterleaves(s.participants, cutoff);
    InterleavesConserves(s.participants, Inactive(s.participants, cutoff), Remaining(s.participants, cutoff));
  }

  /** A sweep changes nothing exactly when no participant is stale. */
  lemma SweptNoopIffNoneInactive(s: Store, now: int, msStatus: int, time: string)
    ensures Swept(s, now, msStatus, time) == s <==> Inactive(s.participants, Cutoff(now, msStatus)) == []
  {
  }

  /** A second sweep with the same clock reading and window changes nothing. */
  lemma SweptIdempotent(s: Store, now: int, msStatus: int, time: string, time': string)
    ensures Swept(Swept(s, now, msStatus, time), now, msStatus, time') == Swept(s, now, msStatus, time)
  {
    var cutoff := Cutoff(now, msStatus);
    SweptState(s, now, msStatus, time);
    RemainingHasNoInactive(s.participants, cutoff);
  }

  /** The number of messages in the log sent in the name of `name`. */
  function CountFrom(ms: seq<Message>, name: string): nat
  {
    if ms == [] then 0
    else (if ms[0].from == name then 1 else 0) + CountFrom(ms[1..], name)
  }

  /** The number of participants in the list called `name`. */
  function CountNamed(ps: seq<Participant>, name: string): nat
  {
    if ps == [] then 0
    else (if ps[0].name == name then 1 else 0) + CountNamed(ps[1..], name)
  }

  /** Names are unique across the live participants. */
  ghost predicate UniqueNames(ps: seq<Participant>)
  {
    forall i, j :: 0 <= i < j < |ps| ==> ps[i].name != ps[j].name
  }

  /** Each found participant named `name` contributes one departure message from `name`. */
  lemma {:induction false} DepartureCount(found: seq<Participant>, time: string, name: string)
    ensures CountFrom(DepartureMessages(found, time), name) == CountNamed(found, name)
  {
    if found != [] {
      DepartureCount(found[1..], time, name);
      assert DepartureMessages(found, time)[1..] == DepartureMessages(found[1..], time);
    }
  }

  /** When nobody in the collection is called `name`, nobody `find` returns is. */
  lemma {:induction false} InactiveNotNamed(ps: seq<Participant>, cutoff: int, name: string)
    requires forall i :: 0 <= i < |ps| ==> ps[i].name != name
    ensures CountNamed(Inactive(ps, cutoff), name) == 0
  {
    if ps != [] {
      InactiveNotNamed(ps[1..], cutoff, name);
    }
  }

  /** With unique names, `find` returns a participant once if stale and never if live. */
  lemma {:induction false} InactiveNamedOnce(ps: seq<Participant>, cutoff: int, p: Participant)
    requires UniqueNames(ps)
    requires p in ps
    ensures CountNamed(Inactive(ps, cutoff), p.name) == if IsInactive(p, cutoff) then 1 else 0
  {
    var k :| 0 <= k < |ps| && ps[k] == p;
    if k == 0 {
      InactiveNotNamed(ps[1..], cutoff, p.name);
    } else {
      assert ps[0].name != p.name;
      assert p in ps[1..] by { assert ps[1..][k - 1] == p; }
      InactiveNamedOnce(ps[1..], cutoff, p);
    }
  }

  /** Part of a collection with unique names has unique names. */
  lemma {:induction false} RemainingUniqueNames(ps: seq<Participant>, cutoff: int)
    requires UniqueNames(ps)
    ensures UniqueNames(Remaining(ps, cutoff))
  {
    if ps != [] {
      RemainingUniqueNames(ps[1..], cutoff);
      if !IsInactive(ps[0], cutoff) {
        var r := Remaining(ps, cutoff);
        forall i, j | 0 <= i < j < |r| ensures r[i].name != r[j].name {
          if i == 0 {
            RemainingMembership(ps[1..], cutoff, r[j]);
            var k :| 0 <= k < |ps[1..]| && ps[1..][k] == r[j];
            assert ps[k + 1] == r[j];
          }
        }
      }
    }
  }

  /**
    With unique names, a sweep appends exactly one departure message from each
    stale participant and none from a live one, and keeps the names unique.
   */
  lemma SweptDepartsOnce(s: Store, now: int, msStatus: int, time: string, p: Participant)
    requires UniqueNames(s.participants)
    requires p in s.participants
    ensures CountFrom(Appended(s, Swept(s, now, msStatus, time)), p.name) ==
      if IsInactive(p, Cutoff(now, msStatus)) then 1 else 0
    ensures UniqueNames(Swept(s, now, msStatus, time).participants)
  {
    var cutoff := Cutoff(now, msStatus);
    SweptAppendsOnly(s, now, msStatus, time);
    SweptState(s, now, msStatus, time);
    DepartureCount(Inactive(s.participants, cutoff), time, p.name);
    InactiveNamedOnce(s.participants, cutoff, p);
    RemainingUniqueNames(s.participants, cutoff);
  }

  /**
    With a 10000 ms window at 15000 ms, "Ana" (last ping at 0) is removed with
    one departure message while "Bia" (last ping at 14000) stays.
   */
  lemma SweptScenario(time: string)
    ensures Swept(Store([Participant("Ana", 0), Participant("Bia", 14000)], []), 15000, 10000, time) ==
      Store([Participant("Bia", 14000)], [Message("Ana", EVERYONE, LEAVE_TEXT, STATUS_KIND, time)])
  {
  }

  /** The database holding the `participants` and `messages` collections. */
  class ChatDb {
    var participants: seq<Participant>
    var messages: seq<Message>

    constructor (participants: seq<Participant>, messages: seq<Message>)
      ensures this.participants == participants && this.messages == messages
    {
      this.participants := participants;
      this.messages := messages;
    }

    /** The two collections as a value. */
    function State(): Store
      reads this
    {
      Store(participants, messages)
    }

    /**
      One run of the inactivity sweep at clock reading `now`, with staleness
      window `msStatus` and `time` the formatted clock the departure messages carry.
     */
    method Sweep(now: int, msStatus: int, time: string)
      modifies this
      ensures State() == Swept(old(State()), now, msStatus, time)
      ensures participants == Remaining(old(participants), Cutoff(now, msStatus))
      ensures messages == old(messages) + DepartureMessages(Inactive(old(participants), Cutoff(now, msStatus)), time)
      ensures forall p :: p in participants ==> !IsInactive(p, Cutoff(now, msStatus))
      ensures Interleaves(old(participants), Inactive(old(participants), Cutoff(now, msStatus)), participants)
      ensures |old(participants)| == |participants| + (|messages| - |old(messages)|)
      ensures Inactive(old(participants), Cutoff(now, msStatus)) == [] <==>
        participants == old(participants) && messages == old(messages)
    {
      ghost var before := State();
      var cutoff := Cutoff(now, msStatus);
      var found := Inactive(participants, cutoff);
      SweptState(before, now, msStatus, time);
      SweptRemovesInactive(before, now, msStatus, time);
      SweptKeepsLive(before, now, msStatus, time);
      SweptConserves(before, now, msStatus, time);
      SweptNoopIffNoneInactive(before, now, msStatus, time);
      if |found| < 1 {
        return;
      }
      participants := Remaining(participants, cutoff);
      messages := messages + DepartureMessages(found, time);
    }
  }
}
