/**
 * The catalog resource: a request that creates a catalog's connection and
 * then advertises the new connector id in the node's "presto" service
 * announcement, by rewriting that announcement's `connectorIds` property.
 */
module CatalogResource {
  import opened Wrappers
  import opened ConnectorIds
  import opened Discovery
  import opened Connectors

  /** The type tag of the node's own announcement. */
  const PrestoType: string := "presto"

  /** The announcement property that lists the connector ids this node serves. */
  const ConnectorIdsProperty: string := "connectorIds"

  const NullCatalogInfoMessage: string := "catalogInfo is null"

  /** The request body: catalog name, connector name and connector properties. */
  datatype CatalogInfo = CatalogInfo(catalogName: string, connectorName: string, properties: map<string, string>)

  datatype CatalogError =
    | NullPointer(message: string)
    | ConnectionFailed(cause: ConnectorError)
      /** "Presto announcement not found: " followed by every announcement inspected. */
    | PrestoAnnouncementNotFound(inspected: seq<ServiceAnnouncement>)

  /** The first announcement of type "presto", if any. */
  function PrestoAnnouncement(anns: seq<ServiceAnnouncement>): (r: Option<ServiceAnnouncement>)
    ensures r.None? <==> forall a :: a in anns ==> a.serviceType != PrestoType
    ensures r.Some? ==>
              exists i :: 0 <= i < |anns| && anns[i] == r.value && r.value.serviceType == PrestoType &&
                          forall j :: 0 <= j < i ==> anns[j].serviceType != PrestoType
  {
    if anns == [] then None
    else if anns[0].serviceType == PrestoType then Some(anns[0])
    else
      var r := PrestoAnnouncement(anns[1..]);
      assert forall a :: a in anns ==> a == anns[0] || a in anns[1..];
      assert r.Some? ==> exists i :: 1 <= i < |anns| && anns[i] == r.value && r.value.serviceType == PrestoType &&
                                      forall j :: 0 <= j < i ==> anns[j].serviceType != PrestoType
      by {
        if r.Some? {
          var k :| 0 <= k < |anns[1..]| && anns[1..][k] == r.value &&
                   forall j :: 0 <= j < k ==> anns[1..][j].serviceType != PrestoType;
          assert anns[k + 1] == r.value;
          assert forall j :: 0 <= j < k + 1 ==> anns[j].serviceType != PrestoType by {
            forall j | 0 <= j < k + 1 ensures anns[j].serviceType != PrestoType {
              if j > 0 { assert anns[j] == anns[1..][j - 1]; }
            }
          }
        }
      }
      r
  }

  /** `getPrestoAnnouncement`: scan the announcements for the first of type "presto". */
  method GetPrestoAnnouncement(announcements: seq<ServiceAnnouncement>) returns (r: Result<ServiceAnnouncement, CatalogError>)
    ensures r.Success? ==> PrestoAnnouncement(announcements) == Some(r.value)
    ensures r.Failure? ==> PrestoAnnouncement(announcements) == None
    ensures r.Failure? ==> r.error == PrestoAnnouncementNotFound(announcements)
  {
    for i := 0 to |announcements|
      invariant PrestoAnnouncement(announcements) == PrestoAnnouncement(announcements[i..])
    {
      if announcements[i].serviceType == PrestoType {
        return Success(announcements[i]);
      }
      assert announcements[i..][1..] == announcements[i + 1..];
    }
    return Failure(PrestoAnnouncementNotFound(announcements));
  }

  /** `nullToEmpty(properties.get("connectorIds"))`. */
  function ConnectorIdsOf(properties: map<string, string>): (r: string)
    ensures ConnectorIdsProperty in properties ==> r == properties[ConnectorIdsProperty]
    ensures ConnectorIdsProperty !in properties ==> r == "" && Parse(r) == []
  {
    if ConnectorIdsProperty in properties then properties[ConnectorIdsProperty]
    else
      ParseOfEmpty();
      ""
  }

  /** `properties.put("connectorIds", value)` on a copy of the map. */
  function WithConnectorIds(properties: map<string, string>, value: string): (r: map<string, string>)
    ensures r.Keys == properties.Keys + {ConnectorIdsProperty}
    ensures forall k :: k in properties && k != ConnectorIdsProperty ==> r[k] == properties[k]
    ensures ConnectorIdsOf(r) == value
  {
    properties[ConnectorIdsProperty := value]
  }

  /** The copied property map with `connectorIds` rewritten to include `connectorId`. */
  function UpdatedProperties(properties: map<string, string>, connectorId: string): (r: map<string, string>)
    ensures r.Keys == properties.Keys + {ConnectorIdsProperty}
    ensures forall k :: k in properties && k != ConnectorIdsProperty ==> r[k] == properties[k]
  {
    WithConnectorIds(properties, AddConnectorId(ConnectorIdsOf(properties), connectorId))
  }

  /**
   * The announcer's state after `updateConnectorIdAnnouncement`: the "presto"
   * announcement is removed by id, a fresh one of the same type with the
   * updated properties is added, and the announcements are broadcast; or the
   * error when there is no "presto" announcement.
   */
  function AfterUpdate(s: AnnouncerState, connectorId: string): (r: Result<AnnouncerState, CatalogError>)
    ensures r.Failure? <==> forall a :: a in s.announcements ==> a.serviceType != PrestoType
    ensures r.Failure? ==> r.error == PrestoAnnouncementNotFound(s.announcements)
  {
    match PrestoAnnouncement(s.announcements)
    case None => Failure(PrestoAnnouncementNotFound(s.announcements))
    case Some(a) =>
      var removed := Removing(s, a.id);
      var added := Adding(removed, a.serviceType, UpdatedProperties(a.properties, connectorId));
      Success(Announcing(added))
  }

  /** `updateConnectorIdAnnouncement`: the read-modify-write of the "presto" announcement. */
  method UpdateConnectorIdAnnouncement(announcer: Announcer, connectorId: string) returns (r: Outcome<CatalogError>)
    modifies announcer
    ensures var out := AfterUpdate(old(announcer.State()), connectorId);
            && (out.Failure? ==> r == Fail(out.error) && announcer.State() == old(announcer.State()))
            && (out.Success? ==> r == Pass && announcer.State() == out.value)
    ensures old(announcer.Valid()) ==> announcer.Valid()
  {
    var found := GetPrestoAnnouncement(announcer.announcements);
    if found.Failure? {
      return Fail(found.error);
    }
    var announcement := found.value;

    var properties := announcement.properties;
    var property := ConnectorIdsOf(properties);
    var connectorIds := FromList(Parse(property));
    connectorIds := Insert(connectorIds, connectorId);
    properties := WithConnectorIds(properties, Join(connectorIds));

    announcer.RemoveServiceAnnouncement(announcement.id);
    var _ := announcer.AddServiceAnnouncement(announcement.serviceType, properties);
    announcer.ForceAnnounce();
    r := Pass;
  }

  /** The result of a request and the collaborators' states after it. */
  datatype TaskOutcome = TaskOutcome(result: Outcome<CatalogError>, manager: ManagerState, announcer: AnnouncerState)

  /**
   * `createOrUpdateTask`: reject a null request, create the connection, and
   * only then update the announcement. Nothing is rolled back when the
   * announcement update fails.
   */
  function CreateOrUpdate(request: Option<CatalogInfo>, m: ManagerState, s: AnnouncerState): (r: TaskOutcome)
    ensures request.None? ==> r == TaskOutcome(Fail(NullPointer(NullCatalogInfoMessage)), m, s)
    ensures request.Some? ==>
              var info := request.value;
              var created := Creating(m, info.catalogName, info.connectorName, info.properties);
              && (created.0.Failure? ==> r == TaskOutcome(Fail(ConnectionFailed(created.0.error)), m, s))
              && (created.0.Success? ==> r.manager == created.1)
              && (created.0.Success? && PrestoAnnouncement(s.announcements).None? ==>
                    r.result == Fail(PrestoAnnouncementNotFound(s.announcements)) && r.announcer == s)
              && (r.result.Pass? <==> created.0.Success? && PrestoAnnouncement(s.announcements).Some?)
              && (created.0.Success? && PrestoAnnouncement(s.announcements).Some? ==>
                    r.announcer == AfterUpdate(s, created.0.value).value)
    ensures r.announcer != s ==> r.result.Pass? && |r.manager.connections| == |m.connections| + 1
  {
    match request
    case None => TaskOutcome(Fail(NullPointer(NullCatalogInfoMessage)), m, s)
    case Some(info) =>
      var (created, m') := Creating(m, info.catalogName, info.connectorName, info.properties);
      match created
      case Failure(e) => TaskOutcome(Fail(ConnectionFailed(e)), m', s)
      case Success(connectorId) =>
        match AfterUpdate(s, connectorId)
        case Failure(e) => TaskOutcome(Fail(e), m', s)
        case Success(s') => TaskOutcome(Pass, m', s')
  }

  /** `createOrUpdateTask` against the connector manager and the announcer. */
  method CreateOrUpdateTask(request: Option<CatalogInfo>, manager: ConnectorManager, announcer: Announcer)
    returns (r: Outcome<CatalogError>)
    modifies manager, announcer
    ensures var out := CreateOrUpdate(request, old(manager.State()), old(announcer.State()));
            r == out.result && manager.State() == out.manager && announcer.State() == out.announcer
  {
    if request.None? {
      return Fail(NullPointer(NullCatalogInfoMessage));
    }
    var info := request.value;
    var created := manager.CreateConnection(info.catalogName, info.connectorName, info.properties);
    if created.Failure? {
      return Fail(ConnectionFailed(created.error));
    }
    r := UpdateConnectorIdAnnouncement(announcer, created.value);
  }
}
