/**
 * The part of the discovery client's `Announcer` that the catalog resource
 * uses: the node's current service announcements, removal by id, addition
 * of a new announcement, and a forced broadcast. Each operation is a pure
 * transition on `AnnouncerState`; the `Announcer` class applies it in place.
 */
module Discovery {

  /** A service announcement: its id, its type tag and its flat property map. */
  datatype ServiceAnnouncement = ServiceAnnouncement(id: nat, serviceType: string, properties: map<string, string>)

  /** What the announcer has done, in order; a forced broadcast records what it sent. */
  datatype Event =
    | Removed(id: nat)
    | Added(announcement: ServiceAnnouncement)
    | ForcedAnnounce(announced: seq<ServiceAnnouncement>)

  /**
   * The announcer's state: its announcements, the next id it will hand out
   * (above every id in use) and the log of its events.
   */
  datatype AnnouncerState = AnnouncerState(announcements: seq<ServiceAnnouncement>, nextId: nat, events: seq<Event>)

  predicate DistinctIds(anns: seq<ServiceAnnouncement>)
  {
    forall i, j :: 0 <= i < j < |anns| ==> anns[i].id != anns[j].id
  }

  /** Every id in use was handed out before and no two announcements share one. */
  predicate ValidState(s: AnnouncerState)
  {
    && (forall a :: a in s.announcements ==> a.id < s.nextId)
    && DistinctIds(s.announcements)
  }

  /** A number above the id of every announcement in `anns`. */
  function IdBound(anns: seq<ServiceAnnouncement>): (r: nat)
    ensures forall a :: a in anns ==> a.id < r
  {
    if anns == [] then 0
    else
      var rest := IdBound(anns[1..]);
      assert forall a :: a in anns ==> a == anns[0] || a in anns[1..];
      if anns[0].id < rest then rest else anns[0].id + 1
  }

  /** The announcements without those whose id is `id`, in their original order. */
  function RemoveById(anns: seq<ServiceAnnouncement>, id: nat): (r: seq<ServiceAnnouncement>)
    ensures forall a :: a in r <==> a in anns && a.id != id
    ensures (forall a :: a in anns ==> a.id != id) ==> r == anns
  {
    if anns == [] then []
    else
      var rest := RemoveById(anns[1..], id);
      assert forall a :: a in anns[1..] ==> a in anns;
      assert anns == [anns[0]] + anns[1..];
      if anns[0].id == id then rest else [anns[0]] + rest
  }

  lemma DistinctIdsTail(anns: seq<ServiceAnnouncement>)
    requires anns != [] && DistinctIds(anns)
    ensures DistinctIds(anns[1..])
    ensures forall a :: a in anns[1..] ==> a.id != anns[0].id
  {
    var tail := anns[1..];
    forall i, j | 0 <= i < j < |tail| ensures tail[i].id != tail[j].id {
      assert tail[i] == anns[i + 1] && tail[j] == anns[j + 1];
    }
    forall a | a in tail ensures a.id != anns[0].id {
      var k :| 0 <= k < |tail| && tail[k] == a;
      assert a == anns[k + 1];
    }
  }

  lemma DistinctIdsCons(head: ServiceAnnouncement, rest: seq<ServiceAnnouncement>)
    requires DistinctIds(rest)
    requires forall a :: a in rest ==> a.id != head.id
    ensures DistinctIds([head] + rest)
  {
    var r := [head] + rest;
    forall i, j | 0 <= i < j < |r| ensures r[i].id != r[j].id {
      if i == 0 { assert r[j] in rest; } else { assert r[i] == rest[i - 1] && r[j] == rest[j - 1]; }
    }
  }

  lemma {:induction false} RemoveByIdKeepsDistinct(anns: seq<ServiceAnnouncement>, id: nat)
    requires DistinctIds(anns)
    ensures DistinctIds(RemoveById(anns, id))
  {
    if anns != [] {
      DistinctIdsTail(anns);
      RemoveByIdKeepsDistinct(anns[1..], id);
      if anns[0].id != id {
        DistinctIdsCons(anns[0], RemoveById(anns[1..], id));
      }
    }
  }

  /** `removeServiceAnnouncement(id)`. */
  function Removing(s: AnnouncerState, id: nat): (r: AnnouncerState)
    ensures r.announcements == RemoveById(s.announcements, id) && r.nextId == s.nextId
    ensures ValidState(s) ==> ValidState(r)
    ensures forall a :: a in r.announcements ==> a.id != id
    ensures r.events == s.events + [Removed(id)]
  {
    var anns := RemoveById(s.announcements, id);
    assert DistinctIds(s.announcements) ==> DistinctIds(anns) by {
      if DistinctIds(s.announcements) { RemoveByIdKeepsDistinct(s.announcements, id); }
    }
    AnnouncerState(anns, s.nextId, s.events + [Removed(id)])
  }

  /** `addServiceAnnouncement(...)`: the new announcement gets an id above every id in use. */
  function Adding(s: AnnouncerState, serviceType: string, properties: map<string, string>): (r: AnnouncerState)
    ensures |r.announcements| == |s.announcements| + 1
    ensures r.announcements[..|s.announcements|] == s.announcements
    ensures var a := r.announcements[|s.announcements|];
            && a.serviceType == serviceType && a.properties == properties
            && r.events == s.events + [Added(a)]
    ensures r.nextId == s.nextId + 1
    ensures ValidState(s) ==> ValidState(r)
    ensures ValidState(s) ==> forall a :: a in s.announcements ==> a.id != r.announcements[|s.announcements|].id
  {
    var a := ServiceAnnouncement(s.nextId, serviceType, properties);
    AnnouncerState(s.announcements + [a], s.nextId + 1, s.events + [Added(a)])
  }

  /** `forceAnnounce()`: broadcast the current announcements now. */
  function Announcing(s: AnnouncerState): (r: AnnouncerState)
    ensures r.announcements == s.announcements && r.nextId == s.nextId
    ensures r.events == s.events + [ForcedAnnounce(s.announcements)]
  {
    s.(events := s.events + [ForcedAnnounce(s.announcements)])
  }

  class Announcer {
    var announcements: seq<ServiceAnnouncement>
    var nextId: nat
    var events: seq<Event>

    function State(): AnnouncerState
      reads this
    {
      AnnouncerState(announcements, nextId, events)
    }

    predicate Valid()
      reads this
    {
      ValidState(State())
    }

    /**
     * The announcer the node starts with, holding its initial announcements;
     * ids handed out later lie above all of theirs.
     */
    constructor(initial: seq<ServiceAnnouncement>)
      requires DistinctIds(initial)
      ensures announcements == initial && events == []
      ensures Valid()
    {
      announcements := initial;
      nextId := IdBound(initial);
      events := [];
    }

    method RemoveServiceAnnouncement(id: nat)
      modifies this
      ensures State() == Removing(old(State()), id)
    {
      announcements := RemoveById(announcements, id);
      events := events + [Removed(id)];
    }

    method AddServiceAnnouncement(serviceType: string, properties: map<string, string>) returns (a: ServiceAnnouncement)
      modifies this
      ensures State() == Adding(old(State()), serviceType, properties)
      ensures a == ServiceAnnouncement(old(nextId), serviceType, properties)
    {
      a := ServiceAnnouncement(nextId, serviceType, properties);
      announcements := announcements + [a];
      nextId := nextId + 1;
      events := events + [Added(a)];
    }

    method ForceAnnounce()
      modifies this
      ensures State() == Announcing(old(State()))
    {
      events := events + [ForcedAnnounce(announcements)];
    }
  }
}
