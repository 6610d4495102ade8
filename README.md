# Catalog registration and connector-id announcement

A Dafny model of `CatalogResource`, the HTTP resource through which a Presto
node registers a new catalog at runtime. A PUT request carries a catalog
name, a connector name and connector properties. The resource does three things, in order:

1. It rejects a null request.
2. It asks the connector manager to create the connection, which yields a connector id.
3. It advertises that id in the node's own service announcement, the one of type `"presto"`.

The announcement update is a read-modify-write of the announcement's
`connectorIds` property. That property is a comma-separated list. It is
split on `,`, each piece is trimmed, empty pieces are dropped, and the ids
are loaded into an insertion-ordered set. The new id is added and the set is
joined back with `,`. The old announcement is then removed by id, a new one
of the same type with the updated property map is added, and a broadcast is
forced.

Files:

- `wrappers.dfy`: `Option`, `Result` and `Outcome` stand in for null and exceptions.
- `connector_ids.dfy` (module `ConnectorIds`): the pure string side of the update.
  - Guava's `Splitter.on(',').trimResults().omitEmptyStrings()` (`Pieces`, `Trim`, `TrimAndOmitEmpty`, `Parse`), with Guava's `CharMatcher.whitespace()` table as the whitespace.
  - `LinkedHashSet` construction and `add` (`FromList`, `Insert`).
  - `Joiner.on(',')` (`Join`).
  - The lemmas on these: split/join round trip, order, exactly once, idempotence.
- `discovery.dfy` (module `Discovery`): service announcements and the announcer.
  - Each announcer operation is a pure transition on `AnnouncerState`: `Removing`, `Adding` and `Announcing`.
  - The `Announcer` class applies these transitions in place.
- `connectors.dfy` (module `Connectors`): the connector manager as a collaborator. `createConnection` either records a connection and returns the connector id, or fails: no factory for the connector, a catalog that already has a connection, or a connector that fails to construct.
- `catalog_resource.dfy` (module `CatalogResource`): the core itself.
  - The search loop `GetPrestoAnnouncement`.
  - The update method `UpdateConnectorIdAnnouncement` and the request method `CreateOrUpdateTask`.
  - Each method is proved against a pure specification function: `PrestoAnnouncement`, `AfterUpdate` and `CreateOrUpdate`.
- `catalog_properties.dfy` (module `CatalogProperties`): the lemmas that relate `AfterUpdate` and `CreateOrUpdate` to what the resource promises. They cover replacement of the announcement, a single `"presto"` announcement, the advertised id, idempotence, and the end-to-end result of a request.

## Model

| member | source | states |
|---|---|---|
| `ConnectorIds.IsWhitespace` | presto-main/src/main/java/com/facebook/presto/server/CatalogResource.java:92 | Guava's whitespace table: space, tab, newline and carriage return are whitespace; the separator `,`, digits and ASCII letters are not |
| `ConnectorIds.Trim` | presto-main/src/main/java/com/facebook/presto/server/CatalogResource.java:92 | the result is a slice `s[i..j]` of the input with only whitespace outside it, neither starts nor ends with whitespace, equals already-trimmed input, and introduces no character |
| `ConnectorIds.Pieces` | presto-main/src/main/java/com/facebook/presto/server/CatalogResource.java:92 | splitting on `,` yields at least one piece and no piece contains `,` |
| `ConnectorIds.TrimAndOmitEmpty` | presto-main/src/main/java/com/facebook/presto/server/CatalogResource.java:92 | every kept token is non-empty and trimmed, comma-free pieces give comma-free tokens, there are no more tokens than pieces, and the trimmed form of every piece that is not blank is kept |
| `ConnectorIds.TrimAndOmitEmptySingle` | presto-main/src/main/java/com/facebook/presto/server/CatalogResource.java:92 | a single piece yields its trimmed form, or nothing when it is blank |
| `ConnectorIds.TrimAndOmitEmptyAppend` | presto-main/src/main/java/com/facebook/presto/server/CatalogResource.java:92 | trimming and dropping blanks distributes over concatenation; with the single-piece case this fixes the result exactly: the trimmed non-blank pieces, in order, and nothing else |
| `ConnectorIds.Parse` | presto-main/src/main/java/com/facebook/presto/server/CatalogResource.java:92 | every id read from a `connectorIds` value is non-empty, trimmed and comma-free, and the trimmed form of every piece between commas that is not blank is read |
| `ConnectorIds.PiecesOfSeparated` | presto-main/src/main/java/com/facebook/presto/server/CatalogResource.java:92 | splitting a value at a comma gives the pieces of the left part followed by those of the right part |
| `ConnectorIds.ParseOfSeparated` | presto-main/src/main/java/com/facebook/presto/server/CatalogResource.java:92 | reading a value made of two parts around a comma reads the left part's ids, then the right part's: ids keep the value's order and come from nowhere else |
| `ConnectorIds.ParseOfCommaFree` | presto-main/src/main/java/com/facebook/presto/server/CatalogResource.java:92 | a value without commas lists its trimmed form, or nothing when it is blank; with the previous row this determines the ids of every value |
| `ConnectorIds.Insert` | presto-main/src/main/java/com/facebook/presto/server/CatalogResource.java:93 | insertion-ordered set add: elements are the old ones plus `x`; the old list is kept as a prefix; the list is unchanged iff `x` was present; no duplicates are introduced |
| `ConnectorIds.FromList` | presto-main/src/main/java/com/facebook/presto/server/CatalogResource.java:92 | loading a list into the set gives a duplicate-free list with exactly the same elements |
| `ConnectorIds.Join` | presto-main/src/main/java/com/facebook/presto/server/CatalogResource.java:94 | the first id starts the joined value, followed by a comma when another id follows |
| `ConnectorIds.JoinSeparators` | presto-main/src/main/java/com/facebook/presto/server/CatalogResource.java:94 | joining comma-free ids puts exactly one comma between neighbours: the value holds one comma fewer than there are ids |
| `ConnectorIds.AddConnectorId` | presto-main/src/main/java/com/facebook/presto/server/CatalogResource.java:91-94 | the new value is the id alone when the old value lists no ids; for a well-formed id it re-reads as the old ids loaded into the insertion-ordered set with the id added |
| `ConnectorIds.FromListOfDistinct` | presto-main/src/main/java/com/facebook/presto/server/CatalogResource.java:92 | a duplicate-free list is loaded unchanged |
| `ConnectorIds.FromListKeepsFirstOccurrenceOrder` | presto-main/src/main/java/com/facebook/presto/server/CatalogResource.java:92 | the loaded ids keep the order of their first occurrences in the split value |
| `ConnectorIds.PiecesOfJoin` | presto-main/src/main/java/com/facebook/presto/server/CatalogResource.java:92-94 | splitting the join of comma-free pieces gives the pieces back |
| `ConnectorIds.JoinPieces` | presto-main/src/main/java/com/facebook/presto/server/CatalogResource.java:92-94 | joining the pieces of any value with commas gives the value back |
| `ConnectorIds.ParseJoin` | presto-main/src/main/java/com/facebook/presto/server/CatalogResource.java:92-94 | split/join round trip: re-reading the join of non-empty, trimmed, comma-free ids gives the same list |
| `ConnectorIds.ParseOfEmpty` | presto-main/src/main/java/com/facebook/presto/server/CatalogResource.java:91-92 | the empty value lists no ids |
| `ConnectorIds.AddConnectorIdListsIds` | presto-main/src/main/java/com/facebook/presto/server/CatalogResource.java:91-94 | the written value re-reads as the previous ids, deduplicated in first-occurrence order, with the new id appended only if absent; the new id occurs exactly once; every raw piece of the value is a well-formed token |
| `ConnectorIds.AddConnectorIdIdempotent` | presto-main/src/main/java/com/facebook/presto/server/CatalogResource.java:92-94 | adding the same id twice gives the same value as adding it once |
| `ConnectorIds.AddedIdReadBackIffToken` | presto-main/src/main/java/com/facebook/presto/server/CatalogResource.java:92-94 | the added id is read back from the written value iff it is non-empty, trimmed and comma-free |
| `Discovery.RemoveById` | presto-main/src/main/java/com/facebook/presto/server/CatalogResource.java:97 | the remaining announcements are exactly those whose id differs; removing an absent id changes nothing |
| `Discovery.RemoveByIdKeepsDistinct` | presto-main/src/main/java/com/facebook/presto/server/CatalogResource.java:97 | removal keeps announcement ids distinct |
| `Discovery.Removing` | presto-main/src/main/java/com/facebook/presto/server/CatalogResource.java:97 | removal drops exactly the announcements with that id, keeps the id counter, keeps the announcer's invariant, leaves no announcement with that id and logs the removal |
| `Discovery.Adding` | presto-main/src/main/java/com/facebook/presto/server/CatalogResource.java:98 | adding appends one announcement of the given type and properties, under an id no current announcement has, advances the id counter, keeps the others and the invariant, and logs the addition of that announcement |
| `Discovery.Announcing` | presto-main/src/main/java/com/facebook/presto/server/CatalogResource.java:99 | a forced announce leaves the announcements unchanged and logs a broadcast of them |
| `Discovery.Announcer.constructor` | presto-main/src/main/java/com/facebook/presto/server/CatalogResource.java:46-54 | the announcer the resource is given holds the node's announcements (distinct ids): it starts with exactly them, has logged nothing, and satisfies the announcer invariant |
| `Discovery.Announcer.RemoveServiceAnnouncement` | presto-main/src/main/java/com/facebook/presto/server/CatalogResource.java:97 | the announcer's new state is `Removing` of its old state |
| `Discovery.Announcer.AddServiceAnnouncement` | presto-main/src/main/java/com/facebook/presto/server/CatalogResource.java:98 | the announcer's new state is `Adding` of its old state, and the added announcement is returned |
| `Discovery.Announcer.ForceAnnounce` | presto-main/src/main/java/com/facebook/presto/server/CatalogResource.java:99 | the announcer's new state is `Announcing` of its old state |
| `Connectors.Creating` | presto-main/src/main/java/com/facebook/presto/server/CatalogResource.java:71-74 | creation succeeds iff a factory exists for the connector, the catalog has no connection yet and its connector constructs; each failure is reported in that order and changes nothing; success returns the catalog's connector id, records one connection and keeps catalogs distinct |
| `Connectors.CreatingTwiceFails` | presto-main/src/main/java/com/facebook/presto/server/CatalogResource.java:71-74 | once a catalog has a connection, creating it again fails and changes nothing |
| `Connectors.ConnectorManager.CreateConnection` | presto-main/src/main/java/com/facebook/presto/server/CatalogResource.java:71-74 | the result and the manager's new state are those of `Creating` |
| `CatalogResource.PrestoAnnouncement` | presto-main/src/main/java/com/facebook/presto/server/CatalogResource.java:102-110 | absent iff no announcement has type "presto"; otherwise the first announcement of that type |
| `CatalogResource.GetPrestoAnnouncement` | presto-main/src/main/java/com/facebook/presto/server/CatalogResource.java:102-110 | the scan returns the first "presto" announcement, or fails with an error carrying every announcement inspected |
| `CatalogResource.ConnectorIdsOf` | presto-main/src/main/java/com/facebook/presto/server/CatalogResource.java:91 | the value of the `connectorIds` property when present; otherwise the empty value, which lists no ids |
| `CatalogResource.WithConnectorIds` | presto-main/src/main/java/com/facebook/presto/server/CatalogResource.java:94 | writing `connectorIds` adds only that key, keeps every other property, and the property then reads as the written value |
| `CatalogResource.UpdatedProperties` | presto-main/src/main/java/com/facebook/presto/server/CatalogResource.java:90-94 | the copied map gains only `connectorIds`, and every other property is carried over unchanged |
| `CatalogResource.AfterUpdate` | presto-main/src/main/java/com/facebook/presto/server/CatalogResource.java:80-110 | the update fails iff no announcement has type "presto", and the failure carries the announcements inspected |
| `CatalogResource.UpdateConnectorIdAnnouncement` | presto-main/src/main/java/com/facebook/presto/server/CatalogResource.java:80-100 | on failure the announcer is untouched (no removal, no add, no broadcast); on success its new state is `AfterUpdate` of the old; the announcer invariant is kept |
| `CatalogResource.CreateOrUpdate` | presto-main/src/main/java/com/facebook/presto/server/CatalogResource.java:67-78 | a null request touches nothing; a failed creation is reported and leaves both collaborators untouched; a successful creation's manager state is kept even when no "presto" announcement exists (no rollback); success iff the request is non-null, creation succeeds and a "presto" announcement exists, and then the announcer's new state is `AfterUpdate` of the old one with the created connector id; the announcement changes only after a connection was created |
| `CatalogResource.CreateOrUpdateTask` | presto-main/src/main/java/com/facebook/presto/server/CatalogResource.java:67-78 | the result and both collaborators' new states are those of `CreateOrUpdate` |
| `CatalogProperties.ReplaceAnnouncement` | presto-main/src/main/java/com/facebook/presto/server/CatalogResource.java:97-99 | remove-add-broadcast leaves no announcement with the old id, keeps all others, appends the new one under an id no current announcement has, and logs remove, then add, then a broadcast of the new set |
| `CatalogProperties.UpdateReplacesAnnouncement` | presto-main/src/main/java/com/facebook/presto/server/CatalogResource.java:87-99 | after a successful update the "presto" announcement is replaced by one of the same type with the updated properties under a fresh id, and the broadcast follows the add |
| `CatalogProperties.ReplaceKeepsSinglePresto` | presto-main/src/main/java/com/facebook/presto/server/CatalogResource.java:97-98 | replacing the single "presto" announcement leaves exactly one, the replacement |
| `CatalogProperties.UpdateKeepsSinglePresto` | presto-main/src/main/java/com/facebook/presto/server/CatalogResource.java:87-98 | with a single "presto" announcement before, the update leaves exactly one, carrying the updated properties |
| `CatalogProperties.UpdateAdvertisesConnectorId` | presto-main/src/main/java/com/facebook/presto/server/CatalogResource.java:90-94 | the replacement keeps every other property and re-reads as the old ids (deduplicated, in order) plus the new id once at the end if it was absent |
| `CatalogProperties.WithConnectorIdsTwice` | presto-main/src/main/java/com/facebook/presto/server/CatalogResource.java:94 | writing `connectorIds` twice equals writing the second value once |
| `CatalogProperties.UpdatedPropertiesIdempotent` | presto-main/src/main/java/com/facebook/presto/server/CatalogResource.java:90-94 | rewriting the properties a second time with the same id changes nothing |
| `CatalogProperties.UpdateIdempotent` | presto-main/src/main/java/com/facebook/presto/server/CatalogResource.java:80-100 | advertising the same id twice leaves the "presto" announcement with the same properties as advertising it once |
| `CatalogProperties.CreateOrUpdateAdvertisesCatalog` | presto-main/src/main/java/com/facebook/presto/server/CatalogResource.java:67-99 | a request whose connection is created succeeds, records the connection, and leaves the single "presto" announcement listing the catalog's id exactly once |
| `CatalogProperties.SecondRequestForCatalogFails` | presto-main/src/main/java/com/facebook/presto/server/CatalogResource.java:67-78 | a second request for a catalog the first one created fails in the connector manager and changes neither the manager nor the announcement |

## Left out

- The HTTP routing, media types, `Response` building and the `test` endpoint are request plumbing. They are not modelled. A request either passes (status 200) or fails with the error that would propagate.
- The internals of `ConnectorManager.createConnection` are not part of this model. Its failures are modelled as inputs: no factory for the connector name, a catalog name that already has a connection, and a set `refused` of catalog names whose connector fails to construct. Which catalogs fail to construct is thus fixed per catalog name, not decided by the connector's properties. The connector id is the catalog name.
- The ids that the discovery client gives new announcements are random UUIDs. The model assigns them from a counter that never repeats. This keeps the one property the code relies on: a new id differs from every id in use.
- How `addServiceAnnouncement` and `forceAnnounce` reach the cluster is not modelled. A broadcast is a logged event carrying the announcements sent.
- The iteration order of the announcer's announcement set is unspecified in Java. The model scans the announcements in sequence order.
- The insertion order of the `LinkedHashMap` property copy is not modelled. Properties are a `map`.
- The text of the "Presto announcement not found: ..." exception message is not rendered. The error carries the inspected announcements themselves.
- The unlocked read-modify-write race between concurrent requests is outside this sequential model.
- `ConnectorIds.AddConnectorIdListsIds`, `ConnectorIds.AddConnectorIdIdempotent`, `CatalogProperties.UpdateAdvertisesConnectorId`, `CatalogProperties.UpdateIdempotent`, `CatalogProperties.CreateOrUpdateAdvertisesCatalog`: these require the connector id to be non-empty, trimmed and comma-free. The code does not check this. `ConnectorIds.AddedIdReadBackIffToken` states what happens to any other id: it is not read back as written.
- Catalog drop, rename, delete and on-disk catalog property files are not modelled. This code does not implement them.
