# Verification of NDNS

A Dafny model of NDNS, a domain name service over Named Data Networking, with proofs of its
protocol, its database, its wire format and its name grammar. `dafny verify dfyconfig.toml` checks
everything.

How the parts build on each other:

- `Names`, `Enums`, `Like`, `Protocol`: names and their URI text, enumerations, the SQL `LIKE`
  operator, and the static answers of a set of zones.
- `Tables`, `Managers`, `Dyndns`, `ZoneRegister`: the two id-linked tables with their trigger and
  index, the managers that loop over pointers, dynamic update and registration.
- `Grammar`, `QueryNames`, `NameRoundTrip`: the regular expressions, with a greedy `.*` ending at
  the last position from which the rest still matches, and what can be read back.
- `Tlv`, `ResourceRecords`, `ResponseCodec`: the encoder that prepends in two passes, and decoding.
- `IterativeQuery`, `Resolution`, `Chain`, `HintRefinement`, `Resolver`: the two resolver
  strategies, whole runs, the delegation chain, the refinement between the strategies, and many
  resolutions at once.
- `DataPackets`: the message in a packet, its records labelled by the packet's name.
- `NameServer`, `Network`, `NetworkResolver`: the server on its tables, with updates and queries read
  from printed names, and the resolver theorems carried over to the databases, the parsed names and
  the encoded replies, for one resolution and for many at once.
- `SmallNetworks`, `ExampleNetwork`: networks of ordinary size meet what those theorems ask of the
  encoder, and a network of two servers meets all their hypotheses and is resolved and updated.

Where the program changes objects step by step, a class does the same and each method is proved
against a function; the theorems are about those functions.

What the proofs show about the program's behaviour that its comments do not say, each with its exact
condition and a concrete input:

- A resolution never ends exactly when its chain of delegations reaches a zone in which no prefix of
  the non-empty remaining label is delegated and the whole of it passes the Auth test against a
  delegated label (`Chain.NeverEndsExactly`). It does so when it lies above that label
  (`Chain.NeverEndsAbove`), and only then where labels are without wildcards and in lower case
  (`Chain.NeverEndsAboveExactly`); but also through a wildcard or letter case, even when the zone
  holds the records asked for (`Chain.NeverEndsByWildcard`).
- With forwarding hints a fully delegated name is never answered for type NS, because the test for
  it runs before the counter advances (`HintRefinement.HintedOutcome`,
  `HintRefinement.HintedLeavesUnanswered`).
- A record id that arrives from the wire is only replaced when the record's set is known; otherwise
  ADD stores nothing and REMOVE may delete a record of another key (`Dyndns.UpdateActsExactly`,
  `Dyndns.AddWithIdIsLost`, `Dyndns.RemoveWithIdStrays`).
- The unique index compares the class column too, so a registration can duplicate a set that an
  update created (`ZoneRegister.KeepsKeysUniqueExactly`, `ZoneRegister.UpdatedKeyIsDuplicated`,
  `ZoneRegister.RegistrationCanDuplicateAKey`).
- An answer is named without the hint of the stub's query, so it satisfies the stub's Interest
  exactly when that query carries none (`Resolver.AnswerSatisfiesExactly`).
- Queries are misread exactly when a zone component ends in the hint marker or a label component
  other than the last ends in a query type (`NameRoundTrip.RoundTripExactly`,
  `NameRoundTrip.ZoneReadAsHint`); the position of an embedded update is one too large exactly when
  the last marked zone component is more than the marker (`NameRoundTrip.UpdateIndexExactly`,
  `NameRoundTrip.IndexBehindUpdate`).
- The Auth test for a label is a prefix test exactly when the label holds no `%` (which every
  percent-escape carries), no `_` and no ASCII letter (`Like.PrefixTestExactly`,
  `Like.ExtendsIsLooser`); the resolver theorems hold with the test as it is.

Where code and documentation disagree the model follows the code: `ndns-packet-format.md` puts a
numeric response kind and the answer count into the MetaInfo, while the code writes the kind as text
and the count inside the content; and a comment says that the next zone comes from the last
response's records, while both strategies cut it from the destination, and the hinted one takes only
the FHQuery label from a record. The server has a reply for updates that fail, but the update
function declares to throw nothing, so that an exception inside it ends the program instead.

## Model

| member | source | states |
|---|---|---|
| `Resolution.EndToEnd` | src/iterative-query.cpp:57-125 | For every static set of zones, destination and type, and for both resolver strategies: a run reaches AnswerStub with a response if and only if the recursive delegation walk yields that response; it is given up if and only if the walk meets silence (or, with hints, a missing hint); it never ends if and only if the walk diverges |
| `Resolution.Cost` | src/iterative-query.cpp:100-109 | A run that ends sends at most n+1 Interests for n destination components, or 2n+1 with forwarding hints |
| `Resolution.RunMeetsWalk` | src/app/name-caching-resolver.hpp:138-186 | After those n+1 (2n+1) exchanges the run is answered, given up or still running exactly as the walk says |
| `Resolution.Search` | src/iterative-query.cpp:98-109 | From any point of a zone's Auth-driven search the run ends within the exchanges left, as the walk from that zone says |
| `Resolution.SearchReachesCut` | src/app/name-server.cpp:123-139 | Inside one zone every shorter prefix is answered Auth, and the search stands before the shortest delegated prefix after exactly as many exchanges, with nothing else changed |
| `Resolution.NoCutPastNack` | src/app/name-server.cpp:128-139 | A Nack for an undelegated prefix means that no longer prefix is delegated either |
| `Resolution.StuckForever` | src/iterative-query.cpp:100-102 | Where no prefix of the remaining label is delegated and the whole of it passes the Auth test against a delegated label, the clamped label is answered Auth for ever |
| `Resolution.EndIsFinal` | src/app/name-caching-resolver.hpp:144-158 | A run that has ended changes no more and sends no more Interests |
| `Chain.NeverEndsExactly` | src/iterative-query.cpp:100-116 | A resolution never ends if and only if the chain of shortest delegations reaches a zone in which no prefix of the non-empty remaining label is delegated and the whole of it passes the Auth test (the LIKE test) against a delegated label |
| `Chain.NeverEndsAbove` | src/iterative-query.cpp:100-102 | A concrete case: where only `a/b` is delegated, the resolution of `a` with either strategy is still running after any number of exchanges |
| `Chain.NeverEndsByWildcard` | src/service/query-mgr.cpp:48-49 | A concrete case through a wildcard: `axc/x` is delegated, no delegated label extends `a_c`, a record of which the root zone holds, and with either strategy the resolution of `a_c` is still running after any number of exchanges |
| `Chain.StuckIsAboveCut` | src/service/query-mgr.cpp:48-49 | For labels without wildcards and in lower case, that state of a zone is the one in which the remaining label is an undelegated strict prefix of a delegated label, and no prefix of it is delegated |
| `Chain.NeverEndsAboveExactly` | src/iterative-query.cpp:100-116 | For such labels a resolution never ends if and only if the chain reaches a zone in which the remaining label lies undelegated above a delegated one |
| `Chain.ReachableState` | src/iterative-query.hpp:178-206 | In every reachable state the counters are two consecutive cuts of one chain of shortest delegations and the two hints are those of the same two levels; the NSQuery label lies inside the destination, the RRQuery asks for exactly the destination; at FHQuery the kept response is the NS answer of the last cut; no record list is indexed past its end |
| `Chain.SentAtLevel` | src/iterative-query-with-forwarding-hint.cpp:141-185 | Every Interest sent, in full: zone and hint are those of one level of the chain, the hint being the FH record of the last delegation or the root zone's hint, and without hints the empty one; the label is cut from the destination behind that zone, with type NS or the query's own, or it is the name in the first NS record of the zone's shortest delegation, with type FH |
| `Chain.LastResponseUnderstood` | src/iterative-query.hpp:196-206 | In every reachable state the last response is the NS answer of the last cut while searching below the root, and the Nack that ended the search while asking for the records |
| `Chain.InvariantStep` | src/iterative-query-with-forwarding-hint.cpp:101-132 | Every exchange of either strategy keeps that invariant |
| `Chain.SafeIndices` | src/iterative-query-with-forwarding-hint.cpp:167-172 | The NS answer kept for FHQuery has a record at the index read, and so has every honest answer of kind Resp |
| `Chain.InsideDestination` | src/iterative-query.cpp:128-143 | Zone and label asked together are a prefix of the destination, and the whole of it at RRQuery |
| `Chain.WalkAlongChain` | src/iterative-query.cpp:103-116 | The outcome from the root is the outcome from any level of the chain that leaves something to resolve |
| `HintRefinement.HintedRefinesPlain` | src/iterative-query-with-forwarding-hint.cpp:101-132 | For every type but NS, when every NS answer on the way names a server whose FH records its zone holds: for every number of plain exchanges there is a number of hinted ones (between once and twice as many) after which both runs agree on step, counters and response, and deleting the FHQuery exchanges from the hinted trace leaves exactly the plain trace |
| `HintRefinement.HintedOutcome` | src/iterative-query-with-forwarding-hint.cpp:106-124 | The outcome with hints, exactly: that of the plain resolver when every hint exists and it is not an NS query whose chain of shortest delegations ends exactly at the destination, and silence otherwise (the NS test runs before the counter advances) |
| `HintRefinement.DelegationAnswers` | src/iterative-query.cpp:103-111 | An NS query is answered with records by the plain resolver if and only if its chain of shortest delegations ends exactly at the destination |
| `HintRefinement.HintedLeavesUnanswered` | src/iterative-query-with-forwarding-hint.cpp:106-111 | A concrete case: the NS query for a delegated name is answered by the plain resolver and given up with hints although the hint exists |
| `HintRefinement.MatchedStep` | src/iterative-query-with-forwarding-hint.cpp:102-124 | One plain exchange is one hinted exchange, or two when it follows a delegation |
| `IterativeQuery.IterativeQuery.constructor` | src/iterative-query.cpp:25-35 | A new query is in the initial state |
| `IterativeQuery.IterativeQuery.DoData` | src/iterative-query.cpp:57-125 | The object moves as the plain transition function that the resolution theorems are about |
| `IterativeQuery.IterativeQuery.ToLatestInterest` | src/iterative-query.cpp:128-168 | The Interest of the current state, as in the resolution theorems |
| `IterativeQuery.IterativeQueryWithForwardingHint.constructor` | src/app/name-caching-resolver.hpp:203-208 | A new query with both hints set to that of the root zone |
| `IterativeQuery.IterativeQueryWithForwardingHint.DoData` | src/iterative-query-with-forwarding-hint.cpp:52-134 | The object moves as the hinted transition function, given a record at the index it reads |
| `IterativeQuery.IterativeQueryWithForwardingHint.ToLatestInterest` | src/iterative-query-with-forwarding-hint.cpp:141-185 | The Interest of the current state, including the FHQuery built from the kept NS answer |
| `Resolver.NameCachingResolver.OnInterest` | src/app/name-caching-resolver.hpp:190-215 | A stub's Interest starts one query, the one its name starts by the two theorems below, and sends one Interest |
| `Resolver.StubQueryRead` | src/app/name-caching-resolver.hpp:193-198 | The query that a readable printed name starts is the very query that was printed, whatever untyped suffix follows |
| `Resolver.StubQueryUnread` | src/app/name-caching-resolver.hpp:193-198 | A name that no query expression matches starts an NS query for the empty name |
| `Resolver.NameCachingResolver.OnDataFor` | src/app/name-caching-resolver.hpp:140-186 | A reply takes its callback out and then answers the stub, gives up, or sends the next Interest, on the bound copy only |
| `Resolver.NameCachingResolver.OnTimeout` | src/app/name-caching-resolver.hpp:219-225 | A timeout takes its callback out and changes nothing else |
| `Resolver.NameCachingResolver.ResolvePlain` | src/app/name-caching-resolver.hpp:229-255 | Sends the next Interest and binds a copy of the query that remembers it |
| `Resolver.NameCachingResolver.ResolveHinted` | src/app/name-caching-resolver.hpp:229-255 | The same for a query with hints |
| `Resolver.Independent` | src/app/name-caching-resolver.hpp:138-255 | Under any interleaving of stub Interests, replies and timeouts, every stub's query is in the state of a run by itself on the replies meant for it, has at most one Interest outstanding, is answered at most once and never both |
| `Resolver.AnswersAreCorrect` | src/app/name-caching-resolver.hpp:146-169 | However resolutions interleave and whichever Interests time out, an answer given to a stub is the one the delegation walk yields for its query |
| `Resolver.EveryStubIsServed` | src/app/name-caching-resolver.hpp:138-186 | However resolutions interleave, when every reply is the zones' and Interests time out only where they keep silent: unless its walk diverges, a stub has had its outcome after at most n+1 (2n+1) replies and timeouts, and once it waits no more it has been answered as the walk says, or has no answer where the walk meets silence; where the walk diverges it waits for ever |
| `Resolver.PrintedStubIsServed` | src/app/name-caching-resolver.hpp:138-215 | A readable query that arrives as a printed name is served as the walk for that very query says, and any answer it gets carries that query, its name and that walk's response |
| `Resolver.UnreadStubIsUnanswered` | src/app/name-caching-resolver.hpp:193-211 | A name that no query expression matches is never answered |
| `Resolver.AnswerSatisfiesExactly` | src/app/name-caching-resolver.hpp:146-156 | The answer's name, whatever version follows, extends the name of the stub's Interest if and only if the stub's query carries no hint |
| `Resolver.UnexpectedReplies` | src/iterative-query.cpp:64-116 | A reply of unknown kind ends a resolution, and an Auth outside the search or the reply of an update makes the resolver ask the same again |
| `Resolver.ConsistentDelivery` | src/app/name-caching-resolver.hpp:144-158 | Delivering a reply or a timeout to one callback moves that stub's run and no other |
| `NameServer.NameServer.OnInterest` | src/app/name-server.cpp:35-158 | An update's name is tested for first: the component at the computed index is unpacked and its message decoded, and the first record is applied and acknowledged; where there is none, or its action is refused, an exception leaves the tables as they are; otherwise the tables stay, a query's name is answered from them, and any other name gets no reply |
| `NameServer.NameServer.AnswerQuery` | src/app/name-server.cpp:119-144 | Looks up, then tests for Auth, and decides Resp, Auth or Nack from the tables |
| `NameServer.ReplyIsAnswer` | src/app/name-server.cpp:123-144 | On tables that keep the invariant the reply shows the zone's records in order, or Auth when a record lies under an extension of the label, or Nack |
| `NameServer.ReplyRecords` | src/service/query-mgr.cpp:57-87 | The records of a reply in full: one for every row whose set has the queried zone, label and type, none else, each with its row's id, set id, time-to-live and data and the server's zone, in increasing order of ids |
| `NameServer.SilentExactly` | src/app/name-server.cpp:153-156 | The server keeps silent exactly on names that neither expression matches |
| `NameServer.OnlyUpdatesWrite` | src/app/name-server.cpp:44-103 | Only names that the update expression matches change the tables |
| `NameServer.NotAnUpdate` | src/app/name-server.cpp:44 | A query whose hint, zone and label hold no component that starts with the record type of updates is not taken for an update |
| `NameServer.UpdateArrives` | src/query-update.cpp:85-125 | For every printed update, the record the server acts on is the one decoded from the component that was appended, or, exactly when the last marked zone component is more than the marker, whatever the record type's component holds |
| `NameServer.UpdateIsCarriedOut` | src/app/name-server.cpp:44-92 | A client's update, printed, parsed, unpacked and decoded, in a zone without such a component: it is acknowledged and keeps the table invariant, and it changes the answer of its own key as its action says and no other answer if and only if its incoming record id is harmless; with a refused action it throws and changes nothing |
| `NameServer.RecordArrives` | src/query-update.cpp:120-125 | The record decoded from a component has the label and type of the packet's name, id, data, zone name and action of the record that was encoded, the empty class and the default time-to-live |
| `DataPackets.ReadPacket` | src/response.cpp:172-197 | Reads a packet into a fresh message, whose records take label and type from the packet's name where that is a query's, and fails exactly where the content does not decode |
| `DataPackets.PacketArrives` | src/response.cpp:172-217 | Name, kind, freshness and all records of an encoded message are read from the packet that carries it, with the label and type its name gives |
| `DataPackets.PreparedFor` | src/response.cpp:175-186 | The name of a readable query gives the records read behind it that query's label and type |
| `DataPackets.PreparedOtherwise` | src/response.cpp:178-189 | Behind a name that is no query's they have the empty label and type NS |
| `NameServer.QueryArrives` | src/app/name-server.cpp:104-156 | Printing a query, testing the name for an update first and parsing it at the server gives the reply to that very query, and silence when its label is empty, if the name can be read back (for an empty label: if no component of hint or zone ends in a query type) and holds no component that starts with the record type of updates; the tables stay |
| `Network.ReplyArrives` | src/response.cpp:37-170 | A reply that fits the encoder is decoded by the resolver with its kind and the data of its records in order |
| `Network.ReplyMessageRead` | src/app/name-server.cpp:111-149 | A reply as the resolver's message object holds it: the Interest's name and the version, the server's freshness, and exactly one record for every row of the queried key, with id, data, zone name, label and type, in the order of ids |
| `Network.NetworkServes` | src/app/name-server.cpp:104-156 | Over printed name, server and encoded reply, a query gets the static answer the resolver theorems assume, with silence for an unknown zone and for an empty label |
| `Network.NetworkIsWorld` | src/app/name-caching-resolver.hpp:229-255 | When every answer to an Interest this resolution can send fits the encoder: resolving against the servers' databases, with printed Interests and encoded replies, is, exchange by exchange, resolving against the zones their tables hold |
| `Network.InterestIsAskable` | src/iterative-query-with-forwarding-hint.cpp:141-185 | The Interests a resolution can send: the hint is the root zone's or one in an FH record, and zone and label together are a prefix of the destination, or the label is that of one of the zone's NS records |
| `Network.RunIsServed` | src/app/name-caching-resolver.hpp:229-255 | Wherever a resolution is still running, the network answers its next Interest as the static zones do |
| `Network.EndToEndOverDatabases` | src/iterative-query.cpp:57-125 | End-to-end correctness, giving up exactly on silence and exact non-termination, over the tables, the parsed names and the encoded replies |
| `NetworkResolver.AnswersFromDatabases` | src/app/name-caching-resolver.hpp:146-169 | However resolutions interleave and whichever Interests time out, an answer given to a stub from the servers' replies is the one that the walk through their tables yields for its query |
| `NetworkResolver.StubsServedFromDatabases` | src/app/name-caching-resolver.hpp:138-186 | Every stub is served by the servers' databases, within the same bound and as the walk through their tables says, when Interests time out only where the network keeps silent |
| `NetworkResolver.PrintedStubFromDatabases` | src/app/name-caching-resolver.hpp:138-215 | From a stub's printed name through databases, names and bytes to its answer: a readable query is served as the walk through the servers' tables says for that very query |
| `NetworkResolver.PendingIsServed` | src/app/name-caching-resolver.hpp:229-255 | The network answers every outstanding Interest of the resolver as the static zones do |
| `SmallNetworks.SmallNetFits` | src/response.cpp:74-88 | With at most 65536 records per server, of at most 65536 octets and with 32-bit ids, and names of that size, every answer to an Interest a resolution can send fits the encoder |
| `ExampleNetwork.ExampleIsResolved` | src/app/name-caching-resolver.hpp:138-186 | A concrete network of two servers meets all the hypotheses together, and with either strategy a text record below a delegation is answered over names, tables and bytes |
| `ExampleNetwork.ExampleIsUpdated` | src/app/name-server.cpp:44-92 | A concrete encoded update meets all that is asked of one, and after it the server answers with the new record |
| `Managers.QueryMgr.LookupRecords` | src/service/query-mgr.cpp:57-75 | The records of the queried set, in the order of their ids; NameServer.ReplyRecords says what they show |
| `Managers.QueryMgr.CallbackGetRr` | src/service/query-mgr.cpp:77-87 | Takes one row's id, time-to-live and data |
| `Managers.QueryMgr.CountAuth` | src/service/query-mgr.cpp:37-55 | On tables that keep the invariant the count is positive exactly when the zone has Auth for the queried label and type |
| `Protocol.HasAuthMonotone` | src/service/query-mgr.cpp:48-49 | Auth for a label implies Auth for each of its non-empty prefixes |
| `Protocol.HasAuthAbove` | src/service/query-mgr.cpp:37-55 | Every non-empty strict prefix of a delegated label has Auth |
| `Like.ExtendsMonotone` | src/service/query-mgr.cpp:48-49 | The LIKE test is monotone in the prefix, whatever characters occur |
| `Like.ExtendsOwnExtension` | src/service/query-mgr.cpp:48-49 | A label passes the LIKE test against each of its own extensions, whatever characters occur |
| `Like.ExtendsExactly` | src/service/query-mgr.cpp:48-49 | With no wildcard in the label the test holds exactly for the component-wise strict extensions up to letter case |
| `Like.ExtendsIsStrictPrefix` | src/service/query-mgr.cpp:48-49 | When queried and stored labels are both without wildcards and in lower case the test is exactly strict extension |
| `Like.PrefixTestExactly` | src/service/query-mgr.cpp:48-49 | Over all stored labels, the test for a queried label is strict component-wise extension if and only if the queried label holds no percent sign, no underscore and no ASCII letter |
| `Like.ExtendsIsLooser` | src/service/query-mgr.cpp:48-49 | Three concrete matches that are no extensions: through the percent sign of an escape, through an underscore, and through letter case |
| `Dyndns.DyndnsMgr.Update` | src/service/dyndns-mgr.cpp:37-101 | The tables change as the update function of the theorems below |
| `Dyndns.UpdatesRefine` | src/service/dyndns-mgr.cpp:53-90 | After any sequence of updates for known zones with incoming id 0, every lookup answers in order what folding ADD (append if absent), REMOVE (filter), REPLACE_ALL (singleton) and NONE over a map from zone, label and type to data gives, and the table invariant holds |
| `Dyndns.ValidRefines` | src/service/query-mgr.cpp:57-75 | Any tables that keep the invariant refine the store of what their own sets answer, so the refinement starts from any of them |
| `Dyndns.UpdatesFold` | src/service/dyndns-mgr.cpp:37-101 | After any sequence of such updates to any tables that keep the invariant, every lookup answers what folding the actions over the answers before them gives |
| `Dyndns.UpdateActsExactly` | src/service/dyndns-mgr.cpp:45-78 | An update acts on its own key as its action says and leaves all others alone if and only if its incoming record id is harmless: the set is known, or the id is 0, or the action ignores it, or it is a REMOVE of an id that no record has |
| `Dyndns.UpdateWrites` | src/service/dyndns-mgr.cpp:53-90 | The rows after an update with a harmless incoming id, in full: a set that was missing gets one row with the zone's id and the record's label, class and type; the datum gets one row with its time-to-live under a new id at the end of its set, after ADD only if it was absent; REMOVE takes out its row and REPLACE_ALL the rows of its key; all other rows stay in order |
| `Dyndns.HarmfulUpdate` | src/service/dyndns-mgr.cpp:56-72 | Otherwise ADD loses the datum and REMOVE deletes a record of another key |
| `Dyndns.AddWithIdIsLost` | src/service/dyndns-mgr.cpp:56-59 | A concrete ADD with incoming id 7 to an empty database stores nothing |
| `Dyndns.RemoveWithIdStrays` | src/service/dyndns-mgr.cpp:69-72 | A concrete REMOVE for an unknown label with incoming id 7 deletes the record of another label |
| `Dyndns.UpdatesKeepValid` | src/service/dyndns-mgr.cpp:37-101 | Every sequence of updates keeps (zone, label, type) unique, (rrset_id, rrdata) unique, and every rrset_id pointing to an existing positive id |
| `Dyndns.AddActs` | src/service/dyndns-mgr.cpp:56-68 | ADD appends an absent datum and keeps the order of the others |
| `Dyndns.RemoveActs` | src/service/dyndns-mgr.cpp:69-78 | REMOVE by id removes exactly that datum of its own key |
| `Dyndns.ReplaceAllActs` | src/service/dyndns-mgr.cpp:79-90 | REPLACE_ALL leaves one datum under its own key |
| `Dyndns.UnknownZoneActs` | src/db/rr-mgr.cpp:43-47 | For a zone without an id, an ADD with incoming id 0 writes a stored datum again at the end, and a REMOVE with incoming id 0 does nothing |
| `Tables.ZeroSelectsNothing` | src/db/rrset-mgr.cpp:73-81 | The id 0, the mark of an absent set, selects no records |
| `Tables.RRSetIdFinds` | src/db/rrset-mgr.cpp:66-86 | A lookup gives the id of a row with the key, and 0 exactly when there is none |
| `Tables.TextKeys` | src/db/rrset-mgr.cpp:66-86 | Selecting by the text of label and type selects by name and type, because different names and types print differently |
| `Tables.InsertSelects` | src/db/ndns-db-tables.sql:40-45 | An insert with its trigger appends a datum to its set, dropping an earlier copy, and touches no other set |
| `Tables.InsertWrites` | src/db/rr-mgr.cpp:88-100 | An insert leaves the other rows unchanged and in order and writes one row with the given set, time-to-live and data under an id above all of theirs |
| `Tables.SelectedRows` | src/service/query-mgr.cpp:64-72 | The rows selected for a key are exactly those whose set has that zone, label and type, in the order of their ids |
| `Tables.InsertRRKeepsValid` | src/db/ndns-db-tables.sql:25-45 | An insert into an existing set keeps the table invariant |
| `Tables.InsertRRSetKeepsValid` | src/db/rrset-mgr.cpp:34-63 | Creating a set whose key is absent keeps the table invariant |
| `Tables.ViewRecords` | src/service/query-mgr.cpp:57-75 | The zone's records per label and type are what lookups answer |
| `Tables.JoinCountIsAuth` | src/service/query-mgr.cpp:37-55 | The counted join is positive exactly when the zone has Auth for the label |
| `Managers.RRSetMgr.LookupIds` | src/db/rrset-mgr.cpp:65-86 | Every set gets the id of its row or 0, and nothing else changes |
| `Managers.RRSetMgr.Insert` | src/db/rrset-mgr.cpp:34-63 | Inserts the sets in order up to one that the unique index refuses; each object gets the id of its last insertion |
| `Managers.InsertedSets` | src/db/rrset-mgr.cpp:34-63 | Any number of sets inserted without a refusal have one row each behind the old ones, in order, with their zone, label, class and type and under the ids given |
| `Managers.RRSetMgr.RemoveRelatedRRs` | src/db/rrset-mgr.cpp:88-103 | Deletes the records of every set |
| `Managers.RemovedSets` | src/db/rrset-mgr.cpp:88-103 | Deleting the records of any number of sets leaves exactly the rows of the other sets |
| `Managers.RRMgr.LookupIds` | src/db/rr-mgr.cpp:34-59 | A record gets the id of its row or 0, but keeps its own when the zone or set id is 0 |
| `Managers.RRMgr.Insert` | src/db/rr-mgr.cpp:82-107 | Inserts the records in order through the trigger; each object gets the id of its last insertion |
| `Managers.RRMgr.Remove` | src/db/rr-mgr.cpp:61-80 | Deletes the records by id |
| `Managers.RemovedRRs` | src/db/rr-mgr.cpp:61-80 | Deleting any number of records leaves exactly the rows with other ids |
| `ZoneRegister.ZoneRegister.DoRegisterZone` | src/service/zone-register.cpp:110-180 | False and no change for an unknown parent; otherwise both sets, the certificate and every name server are inserted and copied out, or the database refuses a set and only the sets before it stay; for names below the parent, fresh relative labels and tables that keep the invariant: success, the name servers de-duplicated under the subzone's label relative to the parent, the certificate under its own, and no other answer changed |
| `ZoneRegister.PlannedKeys` | src/service/zone-register.cpp:124-140 | The labels written are the components of subzone and certificate name behind the length of the parent zone, so that parent and label together are the name registered, for names below the parent |
| `ZoneRegister.RegistrationDelegates` | src/service/zone-register.cpp:126-168 | Registering fresh keys succeeds and keeps the table invariant; the relative label is answered with the name servers de-duplicated keeping last occurrences in order, the certificate is stored, and no other answer changes |
| `ZoneRegister.RegistrationWrites` | src/service/zone-register.cpp:121-177 | The rows after a registration of fresh keys: two set rows of class `NULL` behind the old ones, and behind the old record rows only those of the certificate and of name servers, with time-to-live 3600; every record copied out names its row by id unless a later name server repeats it |
| `ZoneRegister.RegisteredDelegationAnswers` | src/service/zone-register.cpp:135-168 | After registering a delegation with a name server, the parent answers its label with the servers and answers Auth for every undelegated non-empty strict prefix |
| `ZoneRegister.KeepsKeysUniqueExactly` | src/db/ndns-db-tables.sql:34-35 | A successful registration keeps (zone, label, type) unique if and only if no row of any class held either key; the index also compares the class |
| `ZoneRegister.UpdatedKeyIsDuplicated` | src/service/zone-register.cpp:135-145 | Whatever the tables, a key that an update creates with a class other than `NULL` is duplicated when it is registered afterwards |
| `ZoneRegister.RegistrationCanDuplicateAKey` | src/service/zone-register.cpp:135-145 | A concrete case: a decoded ADD to an empty database (its class is empty), then the registration of the same key (class `NULL`) |
| `ZoneRegister.KeepLastSnoc` | src/db/ndns-db-tables.sql:40-45 | Keeping last occurrences is what repeated inserts through the trigger compute |
| `ResponseCodec.ResponseRoundTrip` | src/response.cpp:90-170 | Decoding an encoded response recovers name, kind, freshness and every record in order, for any number and size of records; the outer length encloses exactly the content |
| `ResponseCodec.ResponseFormat` | src/response.cpp:37-72 | The elements of an encoded response with their type numbers and the text of its kind |
| `ResponseCodec.ContentDecodesExactly` | src/response.cpp:90-170 | A content is decoded if and only if it begins with the four elements of these types, the name and the blob parse, and the blob begins with a number followed by that many readable records |
| `ResponseCodec.ResponseMessage.WireEncode` | src/response.cpp:74-88 | The estimate is exactly the number of bytes written, and the bytes are those of the format |
| `ResponseCodec.ResponseMessage.WireEncodeInto` | src/response.cpp:37-72 | Either pass: the size returned is that of the format, and the buffer pass prepends exactly it |
| `ResponseCodec.ResponseMessage.WireDecode` | src/response.cpp:90-170 | Succeeds exactly on the contents that decode, then appends the records and sets the fields; label and type are kept |
| `ResponseCodec.EncodeRRs` | src/response.cpp:48-52 | The loop from the last record to the first writes the records in order |
| `ResponseCodec.ReadRRs` | src/response.cpp:146-163 | Reads as many records as announced and fails exactly when one of them cannot be read |
| `ResourceRecords.RRRoundTrip` | src/rr.cpp:60-111 | Decoding an encoded record recovers id, zone, data and update action and leaves label, type and time-to-live |
| `ResourceRecords.RRBodyParses` | src/rr.hpp:55-83 | Each field's length encloses exactly its value |
| `ResourceRecords.RecordFormat` | src/rr.hpp:55-83 | The elements of an encoded record with their type numbers and the text of its action |
| `ResourceRecords.RecordDecodesExactly` | src/rr.cpp:60-111 | A record is read if and only if its type is 134 and it begins with elements of types 141, 145, 142 and 143, the first of an integer width; of its id the low 32 bits are kept |
| `ResourceRecords.RR.WireEncodeInto` | src/rr.hpp:55-83 | Either pass over a record, last field first |
| `ResourceRecords.RR.WireEncode` | src/rr.cpp:46-58 | The estimate is exactly the number of bytes written |
| `ResourceRecords.RR.WireDecode` | src/rr.cpp:60-111 | Succeeds exactly on the elements that decode, and then sets the four fields |
| `Tlv.BlocksParse` | src/response.cpp:101-103 | Parsing consecutive blocks recovers the elements across all widths of type and length numbers |
| `Tlv.NumberFormat` | src/response.cpp:57-58 | The widths, markers and big-endian bytes of both number formats, each in the least width |
| `Tlv.EncodingImpl.PrependVarNumber` | src/response.cpp:57-58 | Estimator and buffer agree on the width of a number |
| `NameRoundTrip.RoundTripExactly` | src/query.cpp:42-97 | The printed name of a query with a non-empty label (and any version behind it) is always matched, and reading it gives back hint, zone, query type, label and record type if and only if no zone component ends in the marker and no label component but the last ends in a query type |
| `NameRoundTrip.MarkedReads` | src/ndns-label.hpp:37-59 | What is read instead when a zone component ends in the marker (and no label component ends in a query type): the hint is extended by the zone up to the last such component without its marker, and the zone is what follows |
| `NameRoundTrip.ZoneReadAsHint` | src/ndns-label.hpp:37 | A concrete case: a query in the zone `/www%F0.` is read as one in the root zone with the hint `/www` |
| `NameRoundTrip.ReadsBack` | src/ndns-label.hpp:37-59 | The captures of a readable name, and that they give back every field |
| `NameRoundTrip.ReadsInto` | src/query.cpp:60-74 | Reading a readable name into an object that already has a hint replaces that hint only by a printed one |
| `NameRoundTrip.EmptyLabelExactly` | src/ndns-label.hpp:37 | A name without a label is matched by nothing exactly when no component before the query type ends in one |
| `NameRoundTrip.MatchedExactly` | src/ndns-label.hpp:37-38 | A name is matched exactly when a component ends in a query type and a later one, with at least one between them, starts with a record type |
| `NameRoundTrip.UpdateIndexExactly` | src/query-update.cpp:97-118 | The computed index is the position at which the encoded update was appended, plus one exactly when the last zone component ending in the marker is more than the marker; the update's text needs no condition |
| `NameRoundTrip.IndexBehindUpdate` | src/query-update.cpp:97-118 | A concrete case: for any update in the zone `/www%F0.` the index points behind it, at the record type |
| `NameRoundTrip.MisreadHint` | src/ndns-label.hpp:37 | When any zone component ends in the marker the match succeeds and gives back something else |
| `NameRoundTrip.MisreadZone` | src/ndns-label.hpp:37 | When any label component but the last ends in a query type the match succeeds and gives back something else |
| `Grammar.MatchIsMatchName` | src/ndns-label.hpp:37-38 | Greedy matching of the text is a search for the last fitting components |
| `QueryNames.QueryMessage.ToInterest` | src/query.cpp:76-97 | The name is hint, marker, zone, query type, label and record type, without the first two for an empty hint |
| `QueryNames.QueryMessage.FromInterest` | src/query.cpp:42-74 | Sets the fields from the captures, keeping the old hint when none is captured; changes nothing on a mismatch |
| `QueryNames.QueryMessage.FromUpdateInterest` | src/query-update.cpp:66-128 | Reads the fields and takes the component at the computed index |
| `Names.ParseUri` | src/query.cpp:63-68 | Parsing printed text, with or without a trailing slash, gives the name back |

## Left out

- Faces, signing, certificates, key chains, signals and console output: input and output. The certificate in a registration is one opaque record, and `doTimeout` and `abort` only print.
- SQL text: statements act on the tables directly, so quoting inside labels and data is not modelled, nor are connections and open or closed state.
- Row ids and record ids are unbounded in the tables; only the wire form narrows an id to 32 bits.
- A database file shared by several processes at once: each update is one step.
- `doRegisterTop`: the same two managers on one set and one record.
- ResponseCodec.ResponseRoundTrip: the record's time-to-live, label and type are not carried by the wire format, so they are not recovered; the total size must fit the encoder's 64-bit numbers.
- Reuse of an already encoded wire after setters: every encoding is fresh.
- NameServer.NameServer.OnInterest: taking the signed packet's name and content out of a component is a given function; an update without records, on which the program reads past an empty list, counts as holding none.
- Dyndns.DyndnsMgr.Update: the id and set that the record object itself has after an update, which the program only prints.
- Network.EndToEndOverDatabases: requires that every answer to an Interest this resolution can send fits the encoder (32-bit ids, octet text, 64-bit sizes), and that no name is taken for part of a grammar: no component starts with the record type of updates; no destination component ends in the marker or a query type, the last one exempted unless the chain of delegations ends there; with hints, also the names in NS and FH records.
- Percent-escaping and names made of periods only: a component is its canonical URI text, and interpreting a record's data as a name splits it at slashes.
- Interest lifetimes, freshness of answers, the version appended to names, selectors, and retry counters.
- `src/response-update.cpp`, the dig and update clients, and the command-line tools.
