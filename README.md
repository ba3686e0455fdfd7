# RRDP fetcher model

This project models the client side of one RRDP fetch cycle (RFC 8182), as done by the rsyncit
class `RrdpFetcher`. The fetcher holds the URL of the last snapshot it processed completely. On
each call of `fetchObjects` it does the following:

- It fetches and parses the notification file at the configured RRDP URL.
- It reads the notification's serial and the `uri` and `hash` of its snapshot reference.
- It stops with "not modified" when that URI is the one it remembers.
- Otherwise it fetches the snapshot. It checks the snapshot's SHA-256 against the declared hash, ignoring case.
- It checks that the snapshot's root element is `snapshot` and that its serial equals the notification's.
- It decodes every `publish` element into a map from URI to object. The first element of each URI wins, and later ones are counted as collisions.
- Only then does it remember the snapshot URL.

A call either returns the objects (a success) or ends with an exception. The model names each way
out: not modified (the SnapshotNotModifiedException, which no catch clause handles, so it leaves
`fetchObjects` as it is), structure error (rethrown by its catch clause), fatal (wrapped in a
FetcherException), aborted update (a RepoUpdateAbortedException), or an exception the catch clauses
rethrow or do not match (unclassified).

Files:

- `wrappers.dfy`: `Option`.
- `java_lang.dfy` (module `JavaLang`): the Java library behaviour the fetcher relies on.
  - `Integer.parseInt` to a 32-bit int, and `%d` formatting.
  - `String.trim`.
  - `String.equalsIgnoreCase`.
- `xml.dfy` (module `Xml`): a DOM tree of elements and text.
  - `getAttribute`, `getNamedItem`, `getTextContent` and `getElementsByTagName`.
  - The absolute child-step XPath expressions `/snapshot` and `/snapshot/publish`.
- `rrdp_fetcher.dfy` (module `Rrdp`): the fetcher itself.
  - The exceptions (`Thrown`) and the catch clauses (`Classify`).
  - `loadSnapshot`, `validateSnapshotStructure` and `processPublishElements`.
  - The whole cycle as a function (`Cycle`).
  - The class `RrdpFetcher`. Its `FetchObjects` updates `lastSnapshotUrl` in place and is proved to compute `Cycle`.

HTTP, the XML parser, SHA-256 and the base64 decoder are parameters of a cycle, in the datatype
`Environment`. A cycle also returns the URLs it fetched, in order. This makes it visible that a
not-modified cycle never requests the snapshot.

Some failures are not classified by the catch clauses:

- A base64 decoding failure raises an `IllegalArgumentException`. The decoding lambda's `catch (RuntimeException e)` logs it and rethrows it, and no catch clause of `fetchObjects` matches it, so it leaves `fetchObjects` as it is. Here it is `Unclassified`, not a fatal error.
- A notification without a snapshot reference, a reference without `uri` or `hash`, a snapshot root without `serial`, and a publish element without `uri` are all null dereferences. They too escape as `Unclassified`.
- Serials are whatever `Integer.parseInt` accepts, negative numbers included.
- The session id is never compared.

## Model

| member | source | states |
|---|---|---|
| JavaLang.ParseInt | src/main/java/net/ripe/rpki/rsyncit/rrdp/RrdpFetcher.java:83 | a parsed serial is always a 32-bit signed integer |
| JavaLang.ParseFormattedInt | src/main/java/net/ripe/rpki/rsyncit/rrdp/RrdpFetcher.java:160 | `%d` rendering of any 32-bit integer parses back to that integer |
| JavaLang.FormatInt | src/main/java/net/ripe/rpki/rsyncit/rrdp/RrdpFetcher.java:160 | `%d` writes a minus sign exactly for a negative number, followed by at least one digit and no leading zero |
| JavaLang.ParseIntLeadingZero | src/main/java/net/ripe/rpki/rsyncit/rrdp/RrdpFetcher.java:157 | a leading zero does not change the serial that is read |
| JavaLang.ParseIntKeepsMagnitude | src/main/java/net/ripe/rpki/rsyncit/rrdp/RrdpFetcher.java:83 | a parsed number has exactly the magnitude of the digits read and the sign written, so no digit string out of the `int` range is wrapped around |
| JavaLang.ParseIntRejectsOverflow | src/main/java/net/ripe/rpki/rsyncit/rrdp/RrdpFetcher.java:83 | 2147483648 is rejected (a NumberFormatException), -2147483648 is accepted |
| JavaLang.Trim | src/main/java/net/ripe/rpki/rsyncit/rrdp/RrdpFetcher.java:184 | the trimmed text neither starts nor ends with a character at or below the space |
| JavaLang.TrimKeepsInfix | src/main/java/net/ripe/rpki/rsyncit/rrdp/RrdpFetcher.java:184 | the trimmed text is a contiguous part of the original, with only trimmable characters before and after it |
| JavaLang.TrimSurroundingSpace | src/main/java/net/ripe/rpki/rsyncit/rrdp/RrdpFetcher.java:181-184 | XML whitespace padding around base64 text is removed exactly, leaving the body |
| JavaLang.TrimIdempotent | src/main/java/net/ripe/rpki/rsyncit/rrdp/RrdpFetcher.java:184 | trimming twice is trimming once |
| JavaLang.CaseMappingLaws | src/main/java/net/ripe/rpki/rsyncit/rrdp/RrdpFetcher.java:68 | upper- and lower-casing are idempotent and each absorbs the other; upper-casing changes exactly the letters `a`-`z` |
| JavaLang.CharEqualsIgnoreCaseIff | src/main/java/net/ripe/rpki/rsyncit/rrdp/RrdpFetcher.java:68 | two characters match ignoring case exactly when their upper-case forms are equal |
| JavaLang.EqualsIgnoreCaseIff | src/main/java/net/ripe/rpki/rsyncit/rrdp/RrdpFetcher.java:68 | two hashes match ignoring case exactly when their upper-case forms are equal |
| JavaLang.EqualsIgnoreCaseOfCase | src/main/java/net/ripe/rpki/rsyncit/rrdp/RrdpFetcher.java:68 | a hash matches its own upper-case and lower-case forms |
| JavaLang.EqualsIgnoreCaseEquivalence | src/main/java/net/ripe/rpki/rsyncit/rrdp/RrdpFetcher.java:68 | matching ignoring case is reflexive, symmetric and transitive |
| Xml.GetAttributeOfNamedItem | src/main/java/net/ripe/rpki/rsyncit/rrdp/RrdpFetcher.java:83-88 | `getAttribute` is the value of the node `getNamedItem` returns, and the empty string where that node is null |
| Xml.TextContentOfTextChild | src/main/java/net/ripe/rpki/rsyncit/rrdp/RrdpFetcher.java:178 | the text content of a publish element holding only character data is that data |
| Xml.TextContentAppend | src/main/java/net/ripe/rpki/rsyncit/rrdp/RrdpFetcher.java:178 | appending a child to an element appends that child's text content: children are read in document order |
| Xml.ElementsByTagName | src/main/java/net/ripe/rpki/rsyncit/rrdp/RrdpFetcher.java:85 | every element returned carries the requested tag; every child with that tag, and every element a child's own search returns, is among the results |
| Xml.ElementsByTagNameSound | src/main/java/net/ripe/rpki/rsyncit/rrdp/RrdpFetcher.java:85 | everything returned is found in the tree: a child of the node, or returned by the search inside one of its children |
| Xml.FirstElementInside | src/main/java/net/ripe/rpki/rsyncit/rrdp/RrdpFetcher.java:85 | `item(0)` is the first match inside the first child that contains one, when that child is not itself a match and no earlier child has or contains one |
| Xml.FirstElementByTagName | src/main/java/net/ripe/rpki/rsyncit/rrdp/RrdpFetcher.java:85 | `item(0)` is the first child with the tag when no earlier child has the tag or contains an element with it |
| Xml.ChildElements | src/main/java/net/ripe/rpki/rsyncit/rrdp/RrdpFetcher.java:166-167 | one step selects children with that name, each matching child once, in document order: the selected elements sit at strictly increasing child positions that include every matching position |
| Xml.SelectRoot | src/main/java/net/ripe/rpki/rsyncit/rrdp/RrdpFetcher.java:149-153 | `/snapshot` selects one node when the document element is `snapshot`, none otherwise |
| Xml.SelectChildren | src/main/java/net/ripe/rpki/rsyncit/rrdp/RrdpFetcher.java:166-167 | `/snapshot/publish` selects the `publish` children of a `snapshot` root and nothing under any other root |
| Rrdp.Classify | src/main/java/net/ripe/rpki/rsyncit/rrdp/RrdpFetcher.java:111-144 | no exception is a success; structure errors pass through unchanged; only not-modified becomes not modified; exactly the parse and number-format failures are fatal; exactly request failures, timeouts and 2xx response errors abort; anything else escapes unchanged; not-modified keeps its URL, a wrapped failure carries the original, and a 2xx response error aborts with the response's request URI |
| Rrdp.HashMismatchMessageReportsAll | src/main/java/net/ripe/rpki/rsyncit/rrdp/RrdpFetcher.java:69-70 | the hash mismatch message carries the length (readable back), the computed hash and the expected hash |
| Rrdp.SerialMismatchMessageReportsBoth | src/main/java/net/ripe/rpki/rsyncit/rrdp/RrdpFetcher.java:160 | the serial mismatch message carries both serials, each readable back |
| Rrdp.ReadNotification | src/main/java/net/ripe/rpki/rsyncit/rrdp/RrdpFetcher.java:83-88 | an unreadable serial is a NumberFormatException; a missing snapshot reference is a null dereference; past those, the first `snapshot` element gives the notification when it has both `uri` and `hash`, and a null dereference when either is missing |
| Rrdp.FetchNotification | src/main/java/net/ripe/rpki/rsyncit/rrdp/RrdpFetcher.java:78-88 | no document builder is a ParserConfigurationException; a failed GET is its transport failure; malformed XML is a SAXException; otherwise the notification is read from the parsed document element |
| Rrdp.LoadSnapshot | src/main/java/net/ripe/rpki/rsyncit/rrdp/RrdpFetcher.java:62-74 | a transport failure passes through; the bytes are accepted exactly when their SHA-256 equals the declared hash ignoring case; otherwise a structure error with URL, length, computed and expected hash |
| Rrdp.ValidateSnapshotStructure | src/main/java/net/ripe/rpki/rsyncit/rrdp/RrdpFetcher.java:147-163 | a root other than `snapshot` is a structure error; a missing serial is a null dereference, an unreadable one a NumberFormatException; a different serial is a structure error reporting both; it passes exactly when root and serial are right |
| Rrdp.FirstIndex | src/main/java/net/ripe/rpki/rsyncit/rrdp/RrdpFetcher.java:193 | the position of a URI's first element: it carries that URI and no earlier element does |
| Rrdp.FirstWins | src/main/java/net/ripe/rpki/rsyncit/rrdp/RrdpFetcher.java:193-204 | the grouped map has exactly the decoded URIs as keys |
| Rrdp.DroppedCount | src/main/java/net/ripe/rpki/rsyncit/rrdp/RrdpFetcher.java:196-199 | the elements dropped as duplicates number the entries minus the distinct URIs |
| Rrdp.DroppedNoneIffDistinct | src/main/java/net/ripe/rpki/rsyncit/rrdp/RrdpFetcher.java:196-199 | no element is dropped exactly when all URIs are distinct |
| Rrdp.AllOkValues | src/main/java/net/ripe/rpki/rsyncit/rrdp/RrdpFetcher.java:173-190 | a stream that completes yields one value per element, in order, and every element succeeded |
| Rrdp.AllOkFailure | src/main/java/net/ripe/rpki/rsyncit/rrdp/RrdpFetcher.java:186-188 | the first element that throws ends the stream with its exception |
| Rrdp.AllOkStep | src/main/java/net/ripe/rpki/rsyncit/rrdp/RrdpFetcher.java:173-190 | consuming one more element appends its value, or its exception ends the whole stream |
| Rrdp.GroupStep | src/main/java/net/ripe/rpki/rsyncit/rrdp/RrdpFetcher.java:193-202 | one more element adds its URI and object when the URI is new, and otherwise adds one collision and keeps the map |
| Rrdp.DecodePublish | src/main/java/net/ripe/rpki/rsyncit/rrdp/RrdpFetcher.java:177-188 | a publish element fails with a null dereference exactly when `uri` is missing, and with IllegalArgumentException exactly when its trimmed text is not base64; otherwise it yields its `uri` and the decoding of its trimmed text |
| Rrdp.ProcessPublish | src/main/java/net/ripe/rpki/rsyncit/rrdp/RrdpFetcher.java:173-206 | processing the publish elements can only fail with a null dereference or an IllegalArgumentException |
| Rrdp.PublishSucceedsIffAllDecode | src/main/java/net/ripe/rpki/rsyncit/rrdp/RrdpFetcher.java:173-190 | processing succeeds exactly when every publish element decodes; otherwise the first failing element's exception is the result and no map is produced |
| Rrdp.PublishKeysAreUris | src/main/java/net/ripe/rpki/rsyncit/rrdp/RrdpFetcher.java:191-204 | the keys of the objects are exactly the URIs of the publish elements |
| Rrdp.PublishFirstElementWins | src/main/java/net/ripe/rpki/rsyncit/rrdp/RrdpFetcher.java:191-204 | each URI maps to the decoded, trimmed text of its first publish element in document order |
| Rrdp.PublishCollisionCount | src/main/java/net/ripe/rpki/rsyncit/rrdp/RrdpFetcher.java:196-206 | the publish elements number the objects plus the collisions, and the collision count is zero exactly when no two elements share a URI |
| Rrdp.ProcessPublishElements | src/main/java/net/ripe/rpki/rsyncit/rrdp/RrdpFetcher.java:165-207 | the loop over the publish elements computes the first-wins map and the collision count, or the first element's exception |
| Rrdp.Cycle | src/main/java/net/ripe/rpki/rsyncit/rrdp/RrdpFetcher.java:76-145 | the remembered snapshot URL changes exactly on success, and then to the snapshot just fetched; every other outcome keeps it; the notification is always the first request |
| Rrdp.SuccessMeansChecksPassed | src/main/java/net/ripe/rpki/rsyncit/rrdp/RrdpFetcher.java:97-110 | a success means a new snapshot URL, a matching hash, a `snapshot` root with the notification's serial and decodable publish elements; the objects are theirs |
| Rrdp.ChecksPassedMeansSuccess | src/main/java/net/ripe/rpki/rsyncit/rrdp/RrdpFetcher.java:97-110 | when all those checks pass, the cycle succeeds with the publish elements' objects and remembers the snapshot URL |
| Rrdp.SameSnapshotUrlIsNotModified | src/main/java/net/ripe/rpki/rsyncit/rrdp/RrdpFetcher.java:91-95 | a notification naming the remembered snapshot URL is not modified, with only the notification fetched and the state unchanged |
| Rrdp.RepeatedSnapshotUrlIsNotModified | src/main/java/net/ripe/rpki/rsyncit/rrdp/RrdpFetcher.java:91-108 | after a success, a cycle whose notification names the same snapshot URL is not modified |
| Rrdp.HashMismatchIsStructureError | src/main/java/net/ripe/rpki/rsyncit/rrdp/RrdpFetcher.java:65-71 | a snapshot with the wrong hash is a structure error with URL, length and both hashes, and nothing is committed |
| Rrdp.WrongRootIsStructureError | src/main/java/net/ripe/rpki/rsyncit/rrdp/RrdpFetcher.java:153-154 | a snapshot whose root is not `snapshot` is a structure error, and nothing is committed |
| Rrdp.SerialMismatchIsStructureError | src/main/java/net/ripe/rpki/rsyncit/rrdp/RrdpFetcher.java:157-161 | a snapshot serial other than the notification's is a structure error reporting both, and nothing is committed |
| Rrdp.BadPublishElementFailsCycle | src/main/java/net/ripe/rpki/rsyncit/rrdp/RrdpFetcher.java:176-189 | one undecodable publish element fails the whole cycle with its exception, with no objects and no commit |
| Rrdp.NotificationFetchFailure | src/main/java/net/ripe/rpki/rsyncit/rrdp/RrdpFetcher.java:80 | a failed notification GET is classified by the catch clauses, and nothing else is fetched or committed |
| Rrdp.SnapshotFetchFailure | src/main/java/net/ripe/rpki/rsyncit/rrdp/RrdpFetcher.java:118-143 | a failed snapshot GET is classified by the catch clauses; a timeout-like failure is an aborted update, never a structure or fatal error |
| Rrdp.RrdpFetcher.constructor | src/main/java/net/ripe/rpki/rsyncit/rrdp/RrdpFetcher.java:46-53 | a new fetcher polls the configured URL and remembers no snapshot |
| Rrdp.RrdpFetcher.FetchObjects | src/main/java/net/ripe/rpki/rsyncit/rrdp/RrdpFetcher.java:76-145 | the outcome, the new `lastSnapshotUrl` and the requests are those of `Cycle` on the old state; the state changes exactly on success, to the snapshot fetched |

## Left out

- Xml.ElementsByTagName: the order of the results is stated only for `item(0)`, which is the only item the fetcher reads (`FirstElementByTagName` and `FirstElementInside`, which together make it the first match in pre-order); the order of later items is not stated.
- HTTP transport (the web client, the timeout duration, the configuration): a GET is the function `Environment.http`, which returns a body or one of the failures the catch clauses distinguish.
- `Environment.http` depends on the URL alone: two GETs of the same URL within a cycle return the same body, which a server changing in between would not.
- A response with an empty body, which makes `block` return null: every GET here returns bytes or fails.
- XML parsing, namespaces, entities and the DOM implementation: the parser is the function `Environment.parse`, which returns a tree or a SAXException.
- IOException out of `DocumentBuilder.parse`: the parser reads an in-memory stream, so the model has no such failure.
- XPathExpressionException: the two XPath expressions are constants that compile.
- SHA-256 and base64 internals: both are uninterpreted functions of the environment. Base64 returns `None` where the decoder throws.
- `Integer.parseInt` on non-ASCII Unicode digits, and case folding outside ASCII: digits are `0`-`9` and case folding is for `A`-`Z` only.
- Locale-dependent digits in `%d`.
- An `IllegalStateException` without a message, whose `getMessage().contains` throws a NullPointerException in the catch clause: the model has only a flag saying whether the message contains "Timeout".
- The collision count is unbounded: the `AtomicInteger` wrap-around after 2^31 collisions is not modelled.
- HashMap iteration order: the object map is a Dafny `map`, with no order.
- Logging, the Sha256 list of colliding objects in the warning, and metrics: none affects a result.
- A content-addressed timestamp store, `createdAt` values and delta files: the fetcher in this source has none of them.
