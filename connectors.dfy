/**
 * The connector manager as the catalog resource sees it: `createConnection`
 * either registers a connection and returns its connector id or fails.
 * How connectors are resolved and instantiated is not part of this model.
 * A creation fails when no factory is registered for the connector name,
 * when the catalog name already has a connection, or when constructing the
 * connector fails; which catalog names fail to construct is an input of the
 * model (`refused`). The connector id is the catalog name.
 */
module Connectors {
  import opened Wrappers

  datatype Connection = Connection(catalogName: string, connectorName: string, properties: map<string, string>)

  datatype ConnectorError =
    | NoFactory(connectorName: string)
    | CatalogExists(catalogName: string)
    | ConstructionFailed(catalogName: string)

  /**
   * The connector names it can instantiate, the connections created so far,
   * and the catalog names whose connector fails to construct.
   */
  datatype ManagerState = ManagerState(factories: set<string>, connections: seq<Connection>, refused: set<string>)

  /** Whether some connection already serves the catalog `catalogName`. */
  predicate HasCatalog(connections: seq<Connection>, catalogName: string)
  {
    exists c :: c in connections && c.catalogName == catalogName
  }

  /** No two connections serve the same catalog. */
  predicate DistinctCatalogs(connections: seq<Connection>)
  {
    forall i, j :: 0 <= i < j < |connections| ==> connections[i].catalogName != connections[j].catalogName
  }

  /**
   * `createConnection(catalogName, connectorName, properties)`: the connector
   * id, and the new state. The checks run in order (factory, existing
   * catalog, construction) and a failed creation changes nothing.
   */
  function Creating(m: ManagerState, catalogName: string, connectorName: string, properties: map<string, string>)
    : (r: (Result<string, ConnectorError>, ManagerState))
    ensures r.0.Success? <==>
              connectorName in m.factories && !HasCatalog(m.connections, catalogName) && catalogName !in m.refused
    ensures connectorName !in m.factories ==> r.0 == Failure(NoFactory(connectorName))
    ensures connectorName in m.factories && HasCatalog(m.connections, catalogName) ==>
              r.0 == Failure(CatalogExists(catalogName))
    ensures connectorName in m.factories && !HasCatalog(m.connections, catalogName) && catalogName in m.refused ==>
              r.0 == Failure(ConstructionFailed(catalogName))
    ensures r.0.Failure? ==> r.1 == m
    ensures r.0.Success? ==>
              && r.0.value == catalogName
              && r.1 == m.(connections := m.connections + [Connection(catalogName, connectorName, properties)])
    ensures DistinctCatalogs(m.connections) ==> DistinctCatalogs(r.1.connections)
  {
    if connectorName !in m.factories then
      (Failure(NoFactory(connectorName)), m)
    else if HasCatalog(m.connections, catalogName) then
      (Failure(CatalogExists(catalogName)), m)
    else if catalogName in m.refused then
      (Failure(ConstructionFailed(catalogName)), m)
    else
      var c := Connection(catalogName, connectorName, properties);
      assert forall i :: 0 <= i < |m.connections| ==> m.connections[i].catalogName != catalogName by {
        forall i | 0 <= i < |m.connections| ensures m.connections[i].catalogName != catalogName {
          assert m.connections[i] in m.connections;
        }
      }
      (Success(catalogName), m.(connections := m.connections + [c]))
  }

  /**
   * Once a catalog has a connection, creating it again fails and changes
   * nothing, whatever connector it names: a catalog is never replaced in
   * place.
   */
  lemma CreatingTwiceFails(m: ManagerState, catalogName: string, connectorName: string, properties: map<string, string>,
                           connectorName': string, properties': map<string, string>)
    requires Creating(m, catalogName, connectorName, properties).0.Success?
    ensures var first := Creating(m, catalogName, connectorName, properties).1;
            var second := Creating(first, catalogName, connectorName', properties');
            && second.0.Failure?
            && second.1 == first
            && (connectorName' in m.factories ==> second.0.error == CatalogExists(catalogName))
  {
    var first := Creating(m, catalogName, connectorName, properties).1;
    var c := Connection(catalogName, connectorName, properties);
    assert c == first.connections[|first.connections| - 1];
    assert HasCatalog(first.connections, catalogName);
  }

  class ConnectorManager {
    var factories: set<string>
    var connections: seq<Connection>
    var refused: set<string>

    function State(): ManagerState
      reads this
    {
      ManagerState(factories, connections, refused)
    }

    method CreateConnection(catalogName: string, connectorName: string, properties: map<string, string>)
      returns (r: Result<string, ConnectorError>)
      modifies this
      ensures (r, State()) == Creating(old(State()), catalogName, connectorName, properties)
    {
      if connectorName !in factories {
        return Failure(NoFactory(connectorName));
      }
      if HasCatalog(connections, catalogName) {
        return Failure(CatalogExists(catalogName));
      }
      if catalogName in refused {
        return Failure(ConstructionFailed(catalogName));
      }
      connections := connections + [Connection(catalogName, connectorName, properties)];
      r := Success(catalogName);
    }
  }
}
