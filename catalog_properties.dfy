/**
 * What the catalog resource's announcement update and request promise,
 * stated over the pure transitions `AfterUpdate` and `CreateOrUpdate`.
 */
module CatalogProperties {
  import opened Wrappers
  import opened ConnectorIds
  import opened Discovery
  import opened Connectors
  import opened CatalogResource

  /** Exactly one announcement of type "presto" (the node's own). */
  predicate SinglePresto(anns: seq<ServiceAnnouncement>)
  {
    && PrestoAnnouncement(anns).Some?
    && forall b :: b in anns && b.serviceType == PrestoType ==> b == PrestoAnnouncement(anns).value
  }

  /** The announcement that replaces the "presto" announcement `a` of `s`. */
  function Replacement(s: AnnouncerState, a: ServiceAnnouncement, connectorId: string): ServiceAnnouncement
  {
    ServiceAnnouncement(s.nextId, a.serviceType, UpdatedProperties(a.properties, connectorId))
  }

  /**
   * Removing announcement `a` by id, adding one of its type with `props`,
   * and broadcasting leaves no announcement with `a`'s id, keeps every other
   * announcement, appends the new one under an id no current announcement
   * has, and logs remove, add and then a broadcast of the new announcements.
   */
  lemma ReplaceAnnouncement(s: AnnouncerState, a: ServiceAnnouncement, props: map<string, string>)
    requires ValidState(s) && a in s.announcements
    ensures var t := Announcing(Adding(Removing(s, a.id), a.serviceType, props));
            var repl := ServiceAnnouncement(s.nextId, a.serviceType, props);
            && ValidState(t)
            && (forall x :: x in t.announcements ==> x.id != a.id)
            && (forall x :: x in t.announcements <==> (x in s.announcements && x.id != a.id) || x == repl)
            && t.announcements[|t.announcements| - 1] == repl
            && (forall x :: x in s.announcements ==> x.id != repl.id)
            && t.events == s.events + [Removed(a.id), Added(repl), ForcedAnnounce(t.announcements)]
  {
    var removed := Removing(s, a.id);
    var repl := ServiceAnnouncement(s.nextId, a.serviceType, props);
    var t := Announcing(Adding(removed, a.serviceType, props));
    assert t.announcements == removed.announcements + [repl];
    assert a.id < s.nextId;
  }

  /**
   * A successful update replaces the "presto" announcement: no announcement
   * keeps its id, every other one is kept, and the replacement of the same
   * type with the updated properties is added under an id no current
   * announcement has and then broadcast.
   */
  lemma UpdateReplacesAnnouncement(s: AnnouncerState, connectorId: string)
    requires ValidState(s)
    requires PrestoAnnouncement(s.announcements).Some?
    ensures AfterUpdate(s, connectorId).Success?
    ensures var a := PrestoAnnouncement(s.announcements).value;
            var t := AfterUpdate(s, connectorId).value;
            var repl := Replacement(s, a, connectorId);
            && ValidState(t)
            && (forall x :: x in t.announcements ==> x.id != a.id)
            && (forall x :: x in t.announcements <==> (x in s.announcements && x.id != a.id) || x == repl)
            && t.announcements[|t.announcements| - 1] == repl
            && repl.serviceType == a.serviceType == PrestoType
            && (forall x :: x in s.announcements ==> x.id != repl.id)
            && t.events == s.events + [Removed(a.id), Added(repl), ForcedAnnounce(t.announcements)]
  {
    var a := PrestoAnnouncement(s.announcements).value;
    ReplaceAnnouncement(s, a, UpdatedProperties(a.properties, connectorId));
  }

  lemma ReplaceKeepsSinglePresto(s: AnnouncerState, props: map<string, string>)
    requires ValidState(s) && SinglePresto(s.announcements)
    ensures var a := PrestoAnnouncement(s.announcements).value;
            var t := Announcing(Adding(Removing(s, a.id), a.serviceType, props));
            var repl := ServiceAnnouncement(s.nextId, a.serviceType, props);
            && SinglePresto(t.announcements)
            && PrestoAnnouncement(t.announcements) == Some(repl)
  {
    var a := PrestoAnnouncement(s.announcements).value;
    var repl := ServiceAnnouncement(s.nextId, a.serviceType, props);
    ReplaceAnnouncement(s, a, props);
    var t := Announcing(Adding(Removing(s, a.id), a.serviceType, props));
    assert repl in t.announcements;
    assert forall b :: b in t.announcements && b.serviceType == PrestoType ==> b == repl;
  }

  /** With a single "presto" announcement before, there is a single one after: the replacement. */
  lemma UpdateKeepsSinglePresto(s: AnnouncerState, connectorId: string)
    requires ValidState(s)
    requires SinglePresto(s.announcements)
    ensures AfterUpdate(s, connectorId).Success?
    ensures var a := PrestoAnnouncement(s.announcements).value;
            var t := AfterUpdate(s, connectorId).value;
            && SinglePresto(t.announcements)
            && PrestoAnnouncement(t.announcements) == Some(Replacement(s, a, connectorId))
  {
    var a := PrestoAnnouncement(s.announcements).value;
    ReplaceKeepsSinglePresto(s, UpdatedProperties(a.properties, connectorId));
  }

  /**
   * The replacement lists the previous ids (deduplicated, first-occurrence
   * order) plus the new id once at the end if it was absent; every other
   * property is carried over unchanged.
   */
  lemma UpdateAdvertisesConnectorId(s: AnnouncerState, connectorId: string)
    requires ValidState(s)
    requires PrestoAnnouncement(s.announcements).Some?
    requires IsToken(connectorId)
    ensures var a := PrestoAnnouncement(s.announcements).value;
            var t := AfterUpdate(s, connectorId).value;
            var repl := t.announcements[|t.announcements| - 1];
            var before := FromList(Parse(ConnectorIdsOf(a.properties)));
            var after := Parse(ConnectorIdsOf(repl.properties));
            && repl.properties.Keys == a.properties.Keys + {ConnectorIdsProperty}
            && (forall k :: k in a.properties && k != ConnectorIdsProperty ==> repl.properties[k] == a.properties[k])
            && (connectorId in before ==> after == before)
            && (connectorId !in before ==> after == before + [connectorId])
            && NoDuplicates(after)
            && multiset(after)[connectorId] == 1
  {
    var a := PrestoAnnouncement(s.announcements).value;
    UpdateReplacesAnnouncement(s, connectorId);
    AddConnectorIdListsIds(ConnectorIdsOf(a.properties), connectorId);
  }

  lemma WithConnectorIdsTwice(properties: map<string, string>, value: string, value': string)
    ensures WithConnectorIds(WithConnectorIds(properties, value), value') == WithConnectorIds(properties, value')
  {
  }

  /** Rewriting properties whose `connectorIds` is `value` adds the id to `value`. */
  lemma UpdatedPropertiesOfRewritten(properties: map<string, string>, value: string, connectorId: string)
    ensures UpdatedProperties(WithConnectorIds(properties, value), connectorId) ==
            WithConnectorIds(properties, AddConnectorId(value, connectorId))
  {
    WithConnectorIdsTwice(properties, value, AddConnectorId(value, connectorId));
  }

  /** Rewriting the properties a second time with the same id changes nothing. */
  lemma UpdatedPropertiesIdempotent(properties: map<string, string>, connectorId: string)
    requires IsToken(connectorId)
    ensures UpdatedProperties(UpdatedProperties(properties, connectorId), connectorId) == UpdatedProperties(properties, connectorId)
  {
    var value := AddConnectorId(ConnectorIdsOf(properties), connectorId);
    UpdatedPropertiesOfRewritten(properties, value, connectorId);
    AddConnectorIdIdempotent(ConnectorIdsOf(properties), connectorId);
  }

  /** Advertising the same connector id twice leaves the same properties as advertising it once. */
  lemma UpdateIdempotent(s: AnnouncerState, connectorId: string)
    requires ValidState(s)
    requires SinglePresto(s.announcements)
    requires IsToken(connectorId)
    ensures AfterUpdate(s, connectorId).Success?
    ensures var t1 := AfterUpdate(s, connectorId).value;
            && AfterUpdate(t1, connectorId).Success?
            && var t2 := AfterUpdate(t1, connectorId).value;
            && SinglePresto(t2.announcements)
            && PrestoAnnouncement(t2.announcements).value.properties == PrestoAnnouncement(t1.announcements).value.properties
  {
    var a := PrestoAnnouncement(s.announcements).value;
    UpdateKeepsSinglePresto(s, connectorId);
    UpdateReplacesAnnouncement(s, connectorId);
    var t1 := AfterUpdate(s, connectorId).value;
    var p1 := Replacement(s, a, connectorId);
    UpdateKeepsSinglePresto(t1, connectorId);
    UpdatedPropertiesIdempotent(a.properties, connectorId);
  }

  /**
   * A request for a known connector, against a node with its single "presto"
   * announcement, succeeds: the connection is recorded and the announcement
   * lists the catalog's connector id exactly once.
   */
  lemma CreateOrUpdateAdvertisesCatalog(info: CatalogInfo, m: ManagerState, s: AnnouncerState)
    requires ValidState(s) && SinglePresto(s.announcements)
    requires Creating(m, info.catalogName, info.connectorName, info.properties).0.Success?
    requires IsToken(info.catalogName)
    ensures var out := CreateOrUpdate(Some(info), m, s);
            && out.result == Pass
            && out.manager.connections == m.connections + [Connection(info.catalogName, info.connectorName, info.properties)]
            && ValidState(out.announcer)
            && SinglePresto(out.announcer.announcements)
            && var ids := Parse(ConnectorIdsOf(PrestoAnnouncement(out.announcer.announcements).value.properties));
            && NoDuplicates(ids)
            && multiset(ids)[info.catalogName] == 1
  {
    UpdateKeepsSinglePresto(s, info.catalogName);
    UpdateReplacesAnnouncement(s, info.catalogName);
    UpdateAdvertisesConnectorId(s, info.catalogName);
  }

  /**
   * A second request for a catalog that the first one created fails in the
   * connector manager and changes neither the manager nor the announcement:
   * despite its name, the task never updates an existing catalog.
   */
  lemma SecondRequestForCatalogFails(info: CatalogInfo, info': CatalogInfo, m: ManagerState, s: AnnouncerState)
    requires Creating(m, info.catalogName, info.connectorName, info.properties).0.Success?
    requires info'.catalogName == info.catalogName
    ensures var first := CreateOrUpdate(Some(info), m, s);
            var second := CreateOrUpdate(Some(info'), first.manager, first.announcer);
            && second.result.Fail?
            && second.result.error.ConnectionFailed?
            && second.manager == first.manager
            && second.announcer == first.announcer
  {
    CreatingTwiceFails(m, info.catalogName, info.connectorName, info.properties, info'.connectorName, info'.properties);
  }
}
