/**
 * The client side of one RRDP fetch cycle (RFC 8182): read the notification file, stop when its
 * snapshot URL is the one already processed, fetch the snapshot and check its SHA-256 hash, check
 * its root element and serial, decode its publish elements into a map from URI to object, and only
 * then remember the snapshot URL.
 *
 * HTTP transport, XML parsing, SHA-256 and base64 decoding are inputs (`Environment`); the Java
 * exceptions of the fetcher become the datatype `Thrown`, and its catch clauses the function
 * `Classify`.
 */
module Rrdp {
  import opened Wrappers
  import opened JavaLang
  import opened Xml

  // ---------------------------------------------------------------------------
  // Inputs

  /** An object built by `new RpkiObject(decoded)` from the decoded content of a publish element. */
  datatype RpkiObject = RpkiObject(bytes: seq<Byte>)

  /** The ways a blocking GET through the web client fails. */
  datatype TransportError =
    | RequestFailure                                        // WebClientRequestException
    | ErrorResponse(status: int, requestUri: Option<string>) // WebClientResponseException: status and request URI (if any)
    | BlockFailure(timeout: bool)                           // IllegalStateException out of block(timeout); whether its message contains "Timeout"

  /** What a blocking GET returns: the response body, or the failure it raises. */
  datatype Response = Body(bytes: seq<Byte>) | Failed(error: TransportError)

  /** What `DocumentBuilder.parse` makes of some bytes: a document element, or a SAXException. */
  datatype ParseResult = Parsed(root: ElementNode) | Malformed

  /**
   * Everything one cycle consults outside the fetcher: whether a document builder can be created,
   * the HTTP server, the XML parser, SHA-256 as a hex string, and the base64 decoder (`None` where
   * `Base64.getDecoder().decode` raises IllegalArgumentException).
   */
  datatype Environment = Environment(
    builderAvailable: bool,
    http: string -> Response,
    parse: seq<Byte> -> ParseResult,
    sha256: seq<Byte> -> string,
    base64: string -> Option<seq<Byte>>)

  // ---------------------------------------------------------------------------
  // Exceptions and outcomes

  /** The reason a SnapshotStructureException gives. */
  datatype StructureDetail =
    | HashMismatch(length: nat, computed: string, expected: string)
    | NoSnapshotRoot
    | SerialMismatch(snapshotSerial: int, notificationSerial: int)

  /** The exceptions that can leave the body of `fetchObjects`. */
  datatype Thrown =
    | SnapshotStructure(url: string, detail: StructureDetail) // SnapshotStructureException
    | SnapshotNotModified(url: string)                      // SnapshotNotModifiedException
    | ParserConfiguration                                   // ParserConfigurationException
    | Sax                                                   // SAXException (malformed XML)
    | NumberFormat                                          // NumberFormatException from Integer.parseInt
    | Transport(error: TransportError)                      // web client and blocking failures
    | NullPointer                                           // dereference of a missing node or attribute
    | IllegalArgument                                       // base64 decoding failure

  /** A computation that yields a value or throws. */
  datatype Try<T> = Ok(value: T) | Throw(exception: Thrown)

  /** How one call of `fetchObjects` ends. */
  datatype Outcome =
    | Success(objects: map<string, RpkiObject>) // the objects of the snapshot, by URI
    | NotModified(url: string)                  // SnapshotNotModifiedException, which no catch clause handles
    | StructureError(url: string, detail: StructureDetail) // SnapshotStructureException
    | Fatal(cause: Thrown)                      // FetcherException wrapping a parse or number format failure
    | Aborted(requestUrl: Option<string>)            // RepoUpdateAbortedException
    | Unclassified(exception: Thrown)           // an exception no catch clause handles, or one rethrown

  /** The notification file's serial and its snapshot reference. */
  datatype Notification = Notification(serial: int, snapshotUri: string, snapshotHash: string)

  /** ProcessPublishElementResult: the objects by URI and the number of publish elements dropped as duplicates. */
  datatype PublishResult = PublishResult(objects: map<string, RpkiObject>, collisionCount: nat)

  /** `HttpStatusCode.is2xxSuccessful`. */
  predicate Is2xx(status: int) {
    200 <= status < 300
  }

  // ---------------------------------------------------------------------------
  // Failure classification: the catch clauses of fetchObjects

  /** The failures the fetcher reports as an aborted update: they say nothing about the repository's data. */
  predicate TimeoutLike(t: Thrown) {
    match t
    case Transport(RequestFailure) => true
    case Transport(BlockFailure(timeout)) => timeout
    case Transport(ErrorResponse(status, _)) => Is2xx(status)
    case _ => false
  }

  /** The checked parse and number-format failures that are wrapped in a FetcherException. */
  predicate Wrapped(t: Thrown) {
    t.ParserConfiguration? || t.Sax? || t.NumberFormat?
  }

  /**
   * How `fetchObjects` ends when the body of its try block throws `t`: what the catch clauses make of
   * it, or `t` itself where no clause matches (a SnapshotNotModifiedException leaves as it is, and is
   * named `NotModified` here).
   */
  function Classify(t: Thrown, rrdpUrl: string): (r: Outcome)
    ensures !r.Success?
    ensures r.StructureError? <==> t.SnapshotStructure?
    ensures t.SnapshotStructure? ==> r == StructureError(t.url, t.detail)
    ensures r.NotModified? <==> t.SnapshotNotModified?
    ensures r.Fatal? <==> Wrapped(t)
    ensures r.Aborted? <==> TimeoutLike(t)
    ensures r.Unclassified? ==> r.exception == t
    ensures t.Transport? && !t.error.ErrorResponse? && r.Aborted? ==> r.requestUrl == Some(rrdpUrl)
    ensures t.Transport? && t.error.ErrorResponse? && Is2xx(t.error.status) ==> r == Aborted(t.error.requestUri)
    ensures t.SnapshotNotModified? ==> r == NotModified(t.url)
    ensures Wrapped(t) ==> r == Fatal(t)
  {
    match t
    case SnapshotStructure(url, detail) => StructureError(url, detail)
    case SnapshotNotModified(url) => NotModified(url)
    case ParserConfiguration => Fatal(t)
    case Sax => Fatal(t)
    case NumberFormat => Fatal(t)
    case Transport(RequestFailure) => Aborted(Some(rrdpUrl))
    case Transport(BlockFailure(timeout)) => if timeout then Aborted(Some(rrdpUrl)) else Unclassified(t)
    case Transport(ErrorResponse(status, requestUri)) => if Is2xx(status) then Aborted(requestUri) else Unclassified(t)
    case NullPointer => Unclassified(t)
    case IllegalArgument => Unclassified(t)
  }

  // ---------------------------------------------------------------------------
  // Messages

  /** The text a SnapshotStructureException carries besides the URL. */
  function DetailMessage(d: StructureDetail): string {
    match d
    case HashMismatch(length, computed, expected) =>
      "with len(content) = " + FormatInt(length) + " had sha256(content) = " + computed + ", expected " + expected
    case NoSnapshotRoot => "No <snapshot>...</snapshot> root element found"
    case SerialMismatch(snapshotSerial, notificationSerial) =>
      "contained serial=" + FormatInt(snapshotSerial) + ", expected=" + FormatInt(notificationSerial)
  }

  /** In `p + x + sep + y`, the part `x` follows `p` and the part `y` follows `sep`. */
  lemma PartsOfConcat(p: string, x: string, sep: string, y: string)
    ensures var m := p + x + sep + y;
            |m| == |p| + |x| + |sep| + |y|
            && m[|p|..|p| + |x|] == x
            && m[|p| + |x| + |sep|..] == y
  {
    var m := p + x + sep + y;
    assert m[|p|..|p| + |x|] == x by {
      assert forall k :: 0 <= k < |x| ==> m[|p| + k] == x[k];
    }
    assert m[|p| + |x| + |sep|..] == y by {
      assert forall k :: 0 <= k < |y| ==> m[|p| + |x| + |sep| + k] == y[k];
    }
  }

  /** In `p + x + q + y + sep + z`, the parts `x`, `y` and `z` sit after what precedes each. */
  lemma PartsOfMessage(p: string, x: string, q: string, y: string, sep: string, z: string)
    ensures var m := p + x + q + y + sep + z;
            var b := |p| + |x|;
            var c := b + |q|;
            |m| == c + |y| + |sep| + |z|
            && m[|p|..b] == x
            && m[c..c + |y|] == y
            && m[|m| - |z|..] == z
  {
    PartsOfConcat(p, x, q, y + sep + z);
    assert p + x + q + y + sep + z == (p + x + q) + y + sep + z;
    PartsOfConcat(p + x + q, y, sep, z);
  }

  /** Two numbers that read back from their parts read back from a message built of them. */
  lemma NumbersReadBack(p: string, x: string, sep: string, y: string, xv: int, yv: int)
    requires ParseInt(x) == Some(xv) && ParseInt(y) == Some(yv)
    ensures var m := p + x + sep + y;
            |p| + |x| + |sep| <= |m|
            && ParseInt(m[|p|..|p| + |x|]) == Some(xv)
            && ParseInt(m[|p| + |x| + |sep|..]) == Some(yv)
  {
    PartsOfConcat(p, x, sep, y);
  }

  /** A number and two texts that are parts of a message read back from it. */
  lemma PartsReadBack(p: string, x: string, q: string, y: string, sep: string, z: string, xv: int)
    requires ParseInt(x) == Some(xv)
    ensures var m := p + x + q + y + sep + z;
            var b := |p| + |x|;
            var c := b + |q|;
            |m| == c + |y| + |sep| + |z|
            && ParseInt(m[|p|..b]) == Some(xv)
            && m[c..c + |y|] == y
            && m[|m| - |z|..] == z
  {
    PartsOfMessage(p, x, q, y, sep, z);
  }

  /** The serial mismatch message reports both serials in a form that reads back to the two numbers. */
  lemma SerialMismatchMessageReportsBoth(snapshotSerial: int, notificationSerial: int)
    requires IsInt32(snapshotSerial) && IsInt32(notificationSerial)
    ensures var m := DetailMessage(SerialMismatch(snapshotSerial, notificationSerial));
            var a := |"contained serial="|;
            var b := a + |FormatInt(snapshotSerial)|;
            b + |", expected="| <= |m|
            && ParseInt(m[a..b]) == Some(snapshotSerial)
            && ParseInt(m[b + |", expected="|..]) == Some(notificationSerial)
  {
    ParseFormattedInt(snapshotSerial);
    ParseFormattedInt(notificationSerial);
    NumbersReadBack("contained serial=", FormatInt(snapshotSerial), ", expected=", FormatInt(notificationSerial),
                    snapshotSerial, notificationSerial);
  }

  /** The hash mismatch message reports the length, the computed hash and, at its end, the expected hash. */
  lemma HashMismatchMessageReportsAll(length: nat, computed: string, expected: string)
    requires IsInt32(length)
    ensures var m := DetailMessage(HashMismatch(length, computed, expected));
            var a := |"with len(content) = "|;
            var b := a + |FormatInt(length)|;
            var c := b + |" had sha256(content) = "|;
            c + |computed| + |", expected "| + |expected| == |m|
            && ParseInt(m[a..b]) == Some(length)
            && m[c..c + |computed|] == computed
            && m[|m| - |expected|..] == expected
  {
    ParseFormattedInt(length);
    PartsReadBack("with len(content) = ", FormatInt(length), " had sha256(content) = ", computed, ", expected ", expected,
                  length);
  }

  // ---------------------------------------------------------------------------
  // Collaborators as seen from the fetcher

  /** `blockForHttpGetRequest`: the body, or the failure thrown. */
  function HttpGet(url: string, env: Environment): Try<seq<Byte>> {
    match env.http(url)
    case Body(bytes) => Ok(bytes)
    case Failed(e) => Throw(Transport(e))
  }

  /** `documentBuilder.parse`: the document element, or a SAXException. */
  function ParseXml(bytes: seq<Byte>, env: Environment): Try<ElementNode> {
    match env.parse(bytes)
    case Parsed(root) => Ok(root)
    case Malformed => Throw(Sax)
  }

  // ---------------------------------------------------------------------------
  // Reading the notification file

  /**
   * The serial of the document element (`getAttribute`, so a missing serial is the empty string and
   * a NumberFormatException), then the `uri` and `hash` of the first `snapshot` element below it; a
   * missing element or attribute is a null dereference.
   */
  function ReadNotification(root: ElementNode): (r: Try<Notification>)
    ensures ParseInt(GetAttribute(root, "serial")).None? ==> r == Throw(NumberFormat)
    ensures ParseInt(GetAttribute(root, "serial")).Some? && ElementsByTagName(root, "snapshot") == [] ==> r == Throw(NullPointer)
    ensures r.Throw? ==> r.exception in {NumberFormat, NullPointer}
    ensures r.Ok? ==> ParseInt(GetAttribute(root, "serial")) == Some(r.value.serial)
    ensures r.Ok? ==> var snapshots := ElementsByTagName(root, "snapshot");
                      |snapshots| > 0
                      && NamedItem(snapshots[0], "uri") == Some(r.value.snapshotUri)
                      && NamedItem(snapshots[0], "hash") == Some(r.value.snapshotHash)
    ensures ParseInt(GetAttribute(root, "serial")).Some? && ElementsByTagName(root, "snapshot") != [] ==>
              var serial, first := ParseInt(GetAttribute(root, "serial")).value, ElementsByTagName(root, "snapshot")[0];
              if NamedItem(first, "uri").Some? && NamedItem(first, "hash").Some?
              then r == Ok(Notification(serial, NamedItem(first, "uri").value, NamedItem(first, "hash").value))
              else r == Throw(NullPointer)
  {
    match ParseInt(GetAttribute(root, "serial"))
    case None => Throw(NumberFormat)
    case Some(serial) =>
      var snapshots := ElementsByTagName(root, "snapshot");
      if |snapshots| == 0 then Throw(NullPointer)
      else
        match (NamedItem(snapshots[0], "uri"), NamedItem(snapshots[0], "hash"))
        case (Some(uri), Some(hash)) => Ok(Notification(serial, uri, hash))
        case _ => Throw(NullPointer)
  }

  /** Everything of `fetchObjects` up to the not-modified test: builder, GET, parse, read. */
  function FetchNotification(rrdpUrl: string, env: Environment): (r: Try<Notification>)
    ensures !env.builderAvailable ==> r == Throw(ParserConfiguration)
    ensures env.builderAvailable && env.http(rrdpUrl).Failed? ==> r == Throw(Transport(env.http(rrdpUrl).error))
    ensures env.builderAvailable && env.http(rrdpUrl).Body? && env.parse(env.http(rrdpUrl).bytes).Malformed? ==>
              r == Throw(Sax)
    ensures env.builderAvailable && env.http(rrdpUrl).Body? && env.parse(env.http(rrdpUrl).bytes).Parsed? ==>
              r == ReadNotification(env.parse(env.http(rrdpUrl).bytes).root)
  {
    if !env.builderAvailable then Throw(ParserConfiguration)
    else
      match HttpGet(rrdpUrl, env)
      case Throw(e) => Throw(e)
      case Ok(bytes) =>
        match ParseXml(bytes, env)
        case Throw(e) => Throw(e)
        case Ok(root) => ReadNotification(root)
  }

  // ---------------------------------------------------------------------------
  // loadSnapshot

  /**
   * `loadSnapshot`: fetches the snapshot and accepts its bytes only when their SHA-256 equals the
   * hash declared in the notification, ignoring case (section 3.4.3 of RFC 8182).
   */
  function LoadSnapshot(url: string, expectedHash: string, env: Environment): (r: Try<seq<Byte>>)
    ensures env.http(url).Failed? ==> r == Throw(Transport(env.http(url).error))
    ensures env.http(url).Body? ==>
              var bytes := env.http(url).bytes;
              (r.Ok? <==> EqualsIgnoreCase(env.sha256(bytes), expectedHash))
              && (r.Ok? ==> r.value == bytes)
              && (r.Throw? ==> r.exception == SnapshotStructure(url, HashMismatch(|bytes|, env.sha256(bytes), expectedHash)))
  {
    match HttpGet(url, env)
    case Throw(e) => Throw(e)
    case Ok(bytes) =>
      var computed := env.sha256(bytes);
      if !EqualsIgnoreCase(computed, expectedHash) then
        Throw(SnapshotStructure(url, HashMismatch(|bytes|, computed, expectedHash)))
      else Ok(bytes)
  }

  // ---------------------------------------------------------------------------
  // validateSnapshotStructure

  /** The `serial` attribute of an element as read by `getNamedItem` and `Integer.parseInt`. */
  datatype SerialAttribute = Absent | Unreadable | Serial(n: int)

  function SerialOf(e: ElementNode): SerialAttribute {
    match NamedItem(e, "serial")
    case None => Absent
    case Some(v) => match ParseInt(v) case None => Unreadable case Some(n) => Serial(n)
  }

  /**
   * `validateSnapshotStructure`: the XPath `/snapshot` must select exactly one node, which happens
   * exactly when the document element is `snapshot`, and that element's serial must equal the
   * notification's serial. The session id is not compared.
   */
  function ValidateSnapshotStructure(notificationSerial: int, snapshotUrl: string, doc: ElementNode): (r: Try<int>)
    ensures doc.tag != "snapshot" ==> r == Throw(SnapshotStructure(snapshotUrl, NoSnapshotRoot))
    ensures doc.tag == "snapshot" && SerialOf(doc).Absent? ==> r == Throw(NullPointer)
    ensures doc.tag == "snapshot" && SerialOf(doc).Unreadable? ==> r == Throw(NumberFormat)
    ensures doc.tag == "snapshot" && SerialOf(doc).Serial? && SerialOf(doc).n != notificationSerial ==>
              r == Throw(SnapshotStructure(snapshotUrl, SerialMismatch(SerialOf(doc).n, notificationSerial)))
    ensures r.Ok? <==> doc.tag == "snapshot" && SerialOf(doc) == Serial(notificationSerial)
    ensures r.Ok? ==> r.value == notificationSerial
  {
    var snapshotNodes := SelectPath(doc, ["snapshot"]);
    SelectRoot(doc, "snapshot");
    if |snapshotNodes| != 1 then Throw(SnapshotStructure(snapshotUrl, NoSnapshotRoot))
    else
      match NamedItem(snapshotNodes[0], "serial")
      case None => Throw(NullPointer)
      case Some(v) =>
        match ParseInt(v)
        case None => Throw(NumberFormat)
        case Some(snapshotSerial) =>
          if notificationSerial != snapshotSerial then
            Throw(SnapshotStructure(snapshotUrl, SerialMismatch(snapshotSerial, notificationSerial)))
          else Ok(snapshotSerial)
  }

  // ---------------------------------------------------------------------------
  // processPublishElements: specification

  /** `/snapshot/publish`: the publish elements, in document order. */
  function PublishElements(doc: ElementNode): seq<ElementNode> {
    SelectPath(doc, ["snapshot", "publish"])
  }

  /**
   * One publish element: its `uri` attribute (a null dereference when missing) and its text
   * content, trimmed and base64-decoded (an IllegalArgumentException when not base64).
   */
  function DecodePublish(item: ElementNode, base64: string -> Option<seq<Byte>>): (r: Try<(string, RpkiObject)>)
    ensures r == Throw(NullPointer) <==> NamedItem(item, "uri").None?
    ensures r == Throw(IllegalArgument) <==> NamedItem(item, "uri").Some? && base64(Trim(TextContent(item))).None?
    ensures r.Ok? <==> NamedItem(item, "uri").Some? && base64(Trim(TextContent(item))).Some?
    ensures r.Ok? ==> NamedItem(item, "uri") == Some(r.value.0) && base64(Trim(TextContent(item))) == Some(r.value.1.bytes)
  {
    match NamedItem(item, "uri")
    case None => Throw(NullPointer)
    case Some(uri) =>
      match base64(Trim(TextContent(item)))
      case None => Throw(IllegalArgument)
      case Some(bytes) => Ok((uri, RpkiObject(bytes)))
  }

  /** The result of decoding each publish element, in document order. */
  function DecodeEach(items: seq<ElementNode>, base64: string -> Option<seq<Byte>>): seq<Try<(string, RpkiObject)>> {
    seq(|items|, j requires 0 <= j < |items| => DecodePublish(items[j], base64))
  }

  /** Consumes results in order, as a stream does: the first exception aborts, otherwise all values. */
  function AllOk<T>(rs: seq<Try<T>>): Try<seq<T>>
    decreases |rs|
  {
    if rs == [] then Ok([])
    else
      match AllOk(rs[..|rs| - 1])
      case Throw(e) => Throw(e)
      case Ok(values) =>
        match rs[|rs| - 1]
        case Throw(e) => Throw(e)
        case Ok(v) => Ok(values + [v])
  }

  /** The distinct URIs among decoded publish elements. */
  function UrisOf(pairs: seq<(string, RpkiObject)>): set<string> {
    set i | 0 <= i < |pairs| :: pairs[i].0
  }

  /** The position of the first element with URI `uri`. */
  function FirstIndex(pairs: seq<(string, RpkiObject)>, uri: string): (j: nat)
    requires uri in UrisOf(pairs)
    ensures j < |pairs| && pairs[j].0 == uri
    ensures forall k :: 0 <= k < j ==> pairs[k].0 != uri
  {
    if pairs[0].0 == uri then 0
    else
      assert uri in UrisOf(pairs[1..]) by {
        var i :| 0 <= i < |pairs| && pairs[i].0 == uri;
        assert pairs[1..][i - 1] == pairs[i];
      }
      1 + FirstIndex(pairs[1..], uri)
  }

  /** Grouping by URI and keeping the first element of every group: each URI maps to its first object. */
  function FirstWins(pairs: seq<(string, RpkiObject)>): (m: map<string, RpkiObject>)
    ensures m.Keys == UrisOf(pairs)
  {
    map u | u in UrisOf(pairs) :: pairs[FirstIndex(pairs, u)].1
  }

  /** The elements dropped by grouping: every element of a group except its first. */
  function Dropped(pairs: seq<(string, RpkiObject)>): set<nat> {
    set i: nat | i < |pairs| && FirstIndex(pairs, pairs[i].0) != i
  }

  /**
   * `processPublishElements`: decode every publish element, group by URI, keep the first element of
   * each group, and count the others (`size - 1` per group) as collisions.
   */
  function ProcessPublish(items: seq<ElementNode>, base64: string -> Option<seq<Byte>>): (r: Try<PublishResult>)
    ensures r.Throw? ==> r.exception in {NullPointer, IllegalArgument}
  {
    match AllOk(DecodeEach(items, base64))
    case Throw(e) => PublishFailureKind(items, base64); Throw(e)
    case Ok(pairs) => Ok(PublishResult(FirstWins(pairs), |Dropped(pairs)|))
  }

  // ---------------------------------------------------------------------------
  // processPublishElements: lemmas on the specification

  lemma UrisOfSnoc(pairs: seq<(string, RpkiObject)>, p: (string, RpkiObject))
    ensures UrisOf(pairs + [p]) == UrisOf(pairs) + {p.0}
  {
    var q := pairs + [p];
    forall u | u in UrisOf(q) ensures u in UrisOf(pairs) + {p.0} {
      var i :| 0 <= i < |q| && q[i].0 == u;
      if i < |pairs| { assert q[i] == pairs[i]; }
    }
    forall u | u in UrisOf(pairs) ensures u in UrisOf(q) {
      var i :| 0 <= i < |pairs| && pairs[i].0 == u;
      assert q[i] == pairs[i];
    }
    assert q[|pairs|] == p;
  }

  lemma FirstIndexSnoc(pairs: seq<(string, RpkiObject)>, p: (string, RpkiObject), uri: string)
    requires uri in UrisOf(pairs + [p])
    ensures uri in UrisOf(pairs) ==> FirstIndex(pairs + [p], uri) == FirstIndex(pairs, uri)
    ensures uri !in UrisOf(pairs) ==> FirstIndex(pairs + [p], uri) == |pairs|
  {
    var q := pairs + [p];
    var j := FirstIndex(q, uri);
    if uri in UrisOf(pairs) {
      var i := FirstIndex(pairs, uri);
      assert q[i] == pairs[i];
    }
  }

  lemma FirstWinsSnoc(pairs: seq<(string, RpkiObject)>, p: (string, RpkiObject))
    ensures FirstWins(pairs + [p]) == if p.0 in UrisOf(pairs) then FirstWins(pairs) else FirstWins(pairs)[p.0 := p.1]
  {
    var q := pairs + [p];
    UrisOfSnoc(pairs, p);
    var expected := if p.0 in UrisOf(pairs) then FirstWins(pairs) else FirstWins(pairs)[p.0 := p.1];
    forall u | u in UrisOf(q) ensures FirstWins(q)[u] == expected[u] {
      FirstIndexSnoc(pairs, p, u);
      if u in UrisOf(pairs) {
        assert q[FirstIndex(pairs, u)] == pairs[FirstIndex(pairs, u)];
      }
    }
  }

  lemma DroppedSnoc(pairs: seq<(string, RpkiObject)>, p: (string, RpkiObject))
    ensures Dropped(pairs + [p]) == Dropped(pairs) + (if p.0 in UrisOf(pairs) then {|pairs|} else {})
  {
    var q := pairs + [p];
    UrisOfSnoc(pairs, p);
    forall i: nat | i < |pairs|
      ensures (i in Dropped(q)) <==> (i in Dropped(pairs))
    {
      assert q[i] == pairs[i];
      assert pairs[i].0 in UrisOf(pairs);
      FirstIndexSnoc(pairs, p, pairs[i].0);
    }
    assert q[|pairs|] == p;
    assert p.0 in UrisOf(q);
    FirstIndexSnoc(pairs, p, p.0);
  }

  /** Every element is either the first of its URI or dropped: |pairs| = |distinct URIs| + |dropped|. */
  lemma {:induction false} DroppedCount(pairs: seq<(string, RpkiObject)>)
    ensures |Dropped(pairs)| + |UrisOf(pairs)| == |pairs|
    decreases |pairs|
  {
    if pairs == [] {
      assert UrisOf(pairs) == {};
      assert Dropped(pairs) == {};
    } else {
      var init, p := pairs[..|pairs| - 1], pairs[|pairs| - 1];
      assert pairs == init + [p];
      DroppedCount(init);
      UrisOfSnoc(init, p);
      DroppedSnoc(init, p);
      if p.0 !in UrisOf(init) {
        assert |UrisOf(init) + {p.0}| == |UrisOf(init)| + 1;
      } else {
        assert UrisOf(init) + {p.0} == UrisOf(init);
        assert |init| !in Dropped(init);
        assert |Dropped(init) + {|init|}| == |Dropped(init)| + 1;
      }
    }
  }

  /** All URIs differ pairwise. */
  predicate DistinctUris(pairs: seq<(string, RpkiObject)>) {
    forall i, j :: 0 <= i < j < |pairs| ==> pairs[i].0 != pairs[j].0
  }

  /** Nothing is dropped exactly when no URI occurs twice. */
  lemma DroppedNoneIffDistinct(pairs: seq<(string, RpkiObject)>)
    ensures Dropped(pairs) == {} <==> DistinctUris(pairs)
  {
    if Dropped(pairs) == {} {
      forall i, j | 0 <= i < j < |pairs| ensures pairs[i].0 != pairs[j].0 {
        assert pairs[j].0 in UrisOf(pairs);
        assert (j as nat) !in Dropped(pairs);
      }
    }
    if DistinctUris(pairs) {
      forall i: nat | i < |pairs| ensures FirstIndex(pairs, pairs[i].0) == i {
        assert pairs[i].0 in UrisOf(pairs);
      }
      assert Dropped(pairs) == {};
    }
  }

  /** When no element fails, the values are the elements' values, position by position. */
  lemma {:induction false} AllOkValues<T>(rs: seq<Try<T>>)
    requires AllOk(rs).Ok?
    ensures |AllOk(rs).value| == |rs| && forall j :: 0 <= j < |rs| ==> rs[j] == Ok(AllOk(rs).value[j])
    decreases |rs|
  {
    if rs != [] {
      var init := rs[..|rs| - 1];
      AllOkValues(init);
      var values := AllOk(init).value;
      assert AllOk(rs).value == values + [rs[|rs| - 1].value];
      forall j | 0 <= j < |init| ensures rs[j] == init[j] { }
    }
  }

  /** The position of the first exception, when there is one. */
  ghost function FirstThrow<T>(rs: seq<Try<T>>): (j: nat)
    requires AllOk(rs).Throw?
    ensures j < |rs| && rs[j].Throw? && AllOk(rs) == Throw(rs[j].exception)
    ensures forall k :: 0 <= k < j ==> rs[k].Ok?
    decreases |rs|
  {
    var init := rs[..|rs| - 1];
    if AllOk(init).Throw? then
      var j := FirstThrow(init);
      assert rs[j] == init[j];
      assert forall k :: 0 <= k < j ==> rs[k] == init[k];
      j
    else
      AllOkValues(init);
      assert forall k :: 0 <= k < |init| ==> rs[k] == init[k];
      |rs| - 1
  }

  /** An exception at position `j`, with none before it, is the exception of the whole. */
  lemma AllOkFailure<T>(rs: seq<Try<T>>, j: nat)
    requires j < |rs| && rs[j].Throw?
    requires forall k :: 0 <= k < j ==> rs[k].Ok?
    ensures AllOk(rs) == Throw(rs[j].exception)
  {
    if AllOk(rs).Ok? {
      AllOkValues(rs);
    } else {
      var f := FirstThrow(rs);
    }
  }

  /** Consuming one more result: its value is appended, or its exception ends the whole stream. */
  lemma AllOkStep<T>(rs: seq<Try<T>>, i: nat)
    requires i < |rs| && AllOk(rs[..i]).Ok?
    ensures rs[i].Ok? ==> AllOk(rs[..i + 1]) == Ok(AllOk(rs[..i]).value + [rs[i].value])
    ensures rs[i].Throw? ==> AllOk(rs) == Throw(rs[i].exception)
  {
    assert rs[..i + 1][..i] == rs[..i];
    if rs[i].Throw? {
      AllOkValues(rs[..i]);
      assert forall k :: 0 <= k < i ==> rs[k] == rs[..i][k];
      AllOkFailure(rs, i);
    }
  }

  /** Grouping one more decoded element: a new URI is added with its object, a repeated one is a collision. */
  lemma GroupStep(pairs: seq<(string, RpkiObject)>, p: (string, RpkiObject))
    ensures FirstWins(pairs + [p]) == if p.0 in FirstWins(pairs) then FirstWins(pairs) else FirstWins(pairs)[p.0 := p.1]
    ensures |Dropped(pairs + [p])| == |Dropped(pairs)| + if p.0 in FirstWins(pairs) then 1 else 0
  {
    FirstWinsSnoc(pairs, p);
    DroppedSnoc(pairs, p);
    assert |pairs| !in Dropped(pairs);
  }

  // ---------------------------------------------------------------------------
  // processPublishElements: what it promises about the publish elements

  /** The URIs the publish elements declare. */
  function PublishUris(items: seq<ElementNode>): set<string> {
    set j | 0 <= j < |items| && NamedItem(items[j], "uri").Some? :: NamedItem(items[j], "uri").value
  }

  /** A failed processing rethrows what one publish element threw: a null dereference or a bad base64 text. */
  lemma PublishFailureKind(items: seq<ElementNode>, base64: string -> Option<seq<Byte>>)
    requires AllOk(DecodeEach(items, base64)).Throw?
    ensures AllOk(DecodeEach(items, base64)).exception in {NullPointer, IllegalArgument}
  {
    var rs := DecodeEach(items, base64);
    var j := FirstThrow(rs);
    assert rs[j] == DecodePublish(items[j], base64);
  }

  /** The values of a successful processing are the decoded publish elements, position by position. */
  lemma DecodedPairs(items: seq<ElementNode>, base64: string -> Option<seq<Byte>>)
    requires AllOk(DecodeEach(items, base64)).Ok?
    ensures var pairs := AllOk(DecodeEach(items, base64)).value;
            |pairs| == |items| && forall j :: 0 <= j < |items| ==> DecodePublish(items[j], base64) == Ok(pairs[j])
  {
    AllOkValues(DecodeEach(items, base64));
  }

  /**
   * Processing succeeds exactly when every publish element has a `uri` attribute and base64 text;
   * otherwise it fails with the exception of the first element that has not, and no map is produced.
   */
  lemma PublishSucceedsIffAllDecode(items: seq<ElementNode>, base64: string -> Option<seq<Byte>>)
    ensures ProcessPublish(items, base64).Ok? <==>
            forall j :: 0 <= j < |items| ==> DecodePublish(items[j], base64).Ok?
    ensures forall j :: 0 <= j < |items| && DecodePublish(items[j], base64).Throw?
                        && (forall k :: 0 <= k < j ==> DecodePublish(items[k], base64).Ok?) ==>
              ProcessPublish(items, base64) == Throw(DecodePublish(items[j], base64).exception)
  {
    var rs := DecodeEach(items, base64);
    assert |rs| == |items| && forall j :: 0 <= j < |items| ==> rs[j] == DecodePublish(items[j], base64);
    if AllOk(rs).Ok? {
      AllOkValues(rs);
    } else {
      var f := FirstThrow(rs);
    }
    forall j | 0 <= j < |items| && DecodePublish(items[j], base64).Throw?
               && (forall k :: 0 <= k < j ==> DecodePublish(items[k], base64).Ok?)
      ensures ProcessPublish(items, base64) == Throw(DecodePublish(items[j], base64).exception)
    {
      AllOkFailure(rs, j);
    }
  }

  /** The keys of the result are exactly the distinct URIs of the publish elements. */
  lemma PublishKeysAreUris(items: seq<ElementNode>, base64: string -> Option<seq<Byte>>)
    requires ProcessPublish(items, base64).Ok?
    ensures ProcessPublish(items, base64).value.objects.Keys == PublishUris(items)
  {
    var pairs := AllOk(DecodeEach(items, base64)).value;
    DecodedPairs(items, base64);
    forall u | u in PublishUris(items) ensures u in UrisOf(pairs) {
      var j :| 0 <= j < |items| && NamedItem(items[j], "uri").Some? && NamedItem(items[j], "uri").value == u;
      assert DecodePublish(items[j], base64) == Ok(pairs[j]);
    }
    forall u | u in UrisOf(pairs) ensures u in PublishUris(items) {
      var j :| 0 <= j < |pairs| && pairs[j].0 == u;
      assert DecodePublish(items[j], base64) == Ok(pairs[j]);
    }
  }

  /** Each URI maps to the decoded, trimmed content of the first publish element with that URI. */
  lemma PublishFirstElementWins(items: seq<ElementNode>, base64: string -> Option<seq<Byte>>, j: nat, uri: string)
    requires ProcessPublish(items, base64).Ok?
    requires j < |items| && NamedItem(items[j], "uri") == Some(uri)
    requires forall k :: 0 <= k < j ==> NamedItem(items[k], "uri") != Some(uri)
    ensures var objects := ProcessPublish(items, base64).value.objects;
            uri in objects && Some(objects[uri].bytes) == base64(Trim(TextContent(items[j])))
  {
    var pairs := AllOk(DecodeEach(items, base64)).value;
    DecodedPairs(items, base64);
    assert DecodePublish(items[j], base64) == Ok(pairs[j]);
    assert uri in UrisOf(pairs);
    var f := FirstIndex(pairs, uri);
    assert DecodePublish(items[f], base64) == Ok(pairs[f]);
    assert f == j;
  }

  /**
   * Every publish element is either kept or counted as a collision, and the count is zero exactly
   * when no two publish elements share a URI.
   */
  lemma PublishCollisionCount(items: seq<ElementNode>, base64: string -> Option<seq<Byte>>)
    requires ProcessPublish(items, base64).Ok?
    ensures var r := ProcessPublish(items, base64).value;
            |items| == |r.objects| + r.collisionCount
            && (r.collisionCount == 0 <==>
                forall i, j :: 0 <= i < j < |items| ==> NamedItem(items[i], "uri") != NamedItem(items[j], "uri"))
  {
    var pairs := AllOk(DecodeEach(items, base64)).value;
    DecodedUris(items, base64);
    DroppedCount(pairs);
    DroppedNoneIffDistinct(pairs);
    assert |FirstWins(pairs)| == |UrisOf(pairs)|;
    DistinctUrisOfItems(items, pairs);
  }

  lemma DecodedUris(items: seq<ElementNode>, base64: string -> Option<seq<Byte>>)
    requires AllOk(DecodeEach(items, base64)).Ok?
    ensures var pairs := AllOk(DecodeEach(items, base64)).value;
            |pairs| == |items| && forall j :: 0 <= j < |items| ==> NamedItem(items[j], "uri") == Some(pairs[j].0)
  {
    var pairs := AllOk(DecodeEach(items, base64)).value;
    DecodedPairs(items, base64);
    forall j | 0 <= j < |items| ensures NamedItem(items[j], "uri") == Some(pairs[j].0) {
      assert DecodePublish(items[j], base64) == Ok(pairs[j]);
    }
  }

  lemma DistinctUrisOfItems(items: seq<ElementNode>, pairs: seq<(string, RpkiObject)>)
    requires |pairs| == |items| && forall j :: 0 <= j < |items| ==> NamedItem(items[j], "uri") == Some(pairs[j].0)
    ensures DistinctUris(pairs) <==>
            forall i, j :: 0 <= i < j < |items| ==> NamedItem(items[i], "uri") != NamedItem(items[j], "uri")
  {
  }

  // ---------------------------------------------------------------------------
  // processPublishElements: the loop

  /**
   * `processPublishElements`: decodes the publish elements in document order, keeps the first object
   * of every URI and counts every later one as a collision; the first element that fails aborts.
   */
  method ProcessPublishElements(doc: ElementNode, base64: string -> Option<seq<Byte>>) returns (r: Try<PublishResult>)
    ensures r == ProcessPublish(PublishElements(doc), base64)
  {
    var items := PublishElements(doc);
    ghost var rs := DecodeEach(items, base64);
    var objects: map<string, RpkiObject> := map[];
    var collisionCount: nat := 0;
    ghost var pairs: seq<(string, RpkiObject)> := [];
    var i := 0;
    while i < |items|
      invariant 0 <= i <= |items|
      invariant AllOk(rs[..i]) == Ok(pairs)
      invariant objects == FirstWins(pairs)
      invariant collisionCount == |Dropped(pairs)|
    {
      var entry := DecodePublish(items[i], base64);
      assert entry == rs[i];
      AllOkStep(rs, i);
      if entry.Throw? {
        return Throw(entry.exception);
      }
      var (uri, obj) := entry.value;
      GroupStep(pairs, (uri, obj));
      if uri in objects {
        collisionCount := collisionCount + 1;
      } else {
        objects := objects[uri := obj];
      }
      pairs := pairs + [(uri, obj)];
      i := i + 1;
    }
    assert rs[..i] == rs;
    r := Ok(PublishResult(objects, collisionCount));
  }

  // ---------------------------------------------------------------------------
  // fetchObjects: the cycle as a function

  /** A fully processed snapshot: its URL and the result of processing its publish elements. */
  datatype Accepted = Accepted(snapshotUrl: string, publish: PublishResult)

  /** What the body of the try block does: an accepted snapshot or an exception, and the URLs it fetched, in order. */
  datatype Attempt = Attempt(result: Try<Accepted>, requests: seq<string>)

  /** Load, hash check, parse, structure check and publish processing of the snapshot the notification names. */
  function ProcessSnapshot(n: Notification, env: Environment): Try<Accepted> {
    match LoadSnapshot(n.snapshotUri, n.snapshotHash, env)
    case Throw(e) => Throw(e)
    case Ok(content) =>
      match ParseXml(content, env)
      case Throw(e) => Throw(e)
      case Ok(doc) =>
        match ValidateSnapshotStructure(n.serial, n.snapshotUri, doc)
        case Throw(e) => Throw(e)
        case Ok(_) =>
          match ProcessPublish(PublishElements(doc), env.base64)
          case Throw(e) => Throw(e)
          case Ok(p) => Ok(Accepted(n.snapshotUri, p))
  }

  /** The try block of `fetchObjects`, up to but not including the assignment of `lastSnapshotUrl`. */
  function TryFetch(last: Option<string>, rrdpUrl: string, env: Environment): Attempt {
    match FetchNotification(rrdpUrl, env)
    case Throw(e) => Attempt(Throw(e), if env.builderAvailable then [rrdpUrl] else [])
    case Ok(n) =>
      if Some(n.snapshotUri) == last then Attempt(Throw(SnapshotNotModified(n.snapshotUri)), [rrdpUrl])
      else Attempt(ProcessSnapshot(n, env), [rrdpUrl, n.snapshotUri])
  }

  /** One call of `fetchObjects` from the state `last`: its outcome, the new state and the URLs fetched. */
  datatype CycleResult = CycleResult(outcome: Outcome, lastSnapshotUrl: Option<string>, requests: seq<string>)

  /**
   * A fetch cycle. The remembered snapshot URL changes exactly when the cycle succeeds, and then to
   * the URL of the snapshot just fetched; every other outcome leaves it as it was.
   */
  function Cycle(last: Option<string>, rrdpUrl: string, env: Environment): (c: CycleResult)
    ensures c.outcome.Success? <==> c.lastSnapshotUrl != last
    ensures c.outcome.Success? ==> |c.requests| == 2 && c.lastSnapshotUrl == Some(c.requests[1])
    ensures !c.outcome.Success? ==> c.lastSnapshotUrl == last
    ensures |c.requests| <= 2 && (c.requests != [] ==> c.requests[0] == rrdpUrl)
  {
    var attempt := TryFetch(last, rrdpUrl, env);
    match attempt.result
    case Ok(accepted) => CycleResult(Success(accepted.publish.objects), Some(accepted.snapshotUrl), attempt.requests)
    case Throw(e) => CycleResult(Classify(e, rrdpUrl), last, attempt.requests)
  }

  // ---------------------------------------------------------------------------
  // fetchObjects: what a cycle promises

  /** Every check of a cycle passes, for the notification `n`, the snapshot bytes `bytes` and their document `doc`. */
  ghost predicate ChecksPass(last: Option<string>, rrdpUrl: string, env: Environment, n: Notification, bytes: seq<Byte>, doc: ElementNode) {
    && FetchNotification(rrdpUrl, env) == Ok(n)
    && last != Some(n.snapshotUri)
    && env.http(n.snapshotUri) == Body(bytes)
    && EqualsIgnoreCase(env.sha256(bytes), n.snapshotHash)
    && env.parse(bytes) == Parsed(doc)
    && doc.tag == "snapshot"
    && SerialOf(doc) == Serial(n.serial)
    && ProcessPublish(PublishElements(doc), env.base64).Ok?
  }

  /**
   * A successful cycle has read a notification with a new snapshot URL, fetched that snapshot,
   * found its hash equal to the declared one, its root a `snapshot` with the notification's serial,
   * and every publish element decodable; its objects are those of the publish elements.
   */
  lemma SuccessMeansChecksPassed(last: Option<string>, rrdpUrl: string, env: Environment)
    requires Cycle(last, rrdpUrl, env).outcome.Success?
    ensures var c := Cycle(last, rrdpUrl, env);
            var n := FetchNotification(rrdpUrl, env).value;
            var bytes := env.http(n.snapshotUri).bytes;
            var doc := env.parse(bytes).root;
            && ChecksPass(last, rrdpUrl, env, n, bytes, doc)
            && c.outcome.objects == ProcessPublish(PublishElements(doc), env.base64).value.objects
            && c.lastSnapshotUrl == Some(n.snapshotUri)
            && c.requests == [rrdpUrl, n.snapshotUri]
  {
    var n := FetchNotification(rrdpUrl, env).value;
    var bytes := env.http(n.snapshotUri).bytes;
    var doc := env.parse(bytes).root;
    assert LoadSnapshot(n.snapshotUri, n.snapshotHash, env) == Ok(bytes);
    assert ValidateSnapshotStructure(n.serial, n.snapshotUri, doc).Ok?;
  }

  /** When every check passes, the cycle succeeds with the publish elements' objects and remembers the snapshot URL. */
  lemma ChecksPassedMeansSuccess(last: Option<string>, rrdpUrl: string, env: Environment, n: Notification, bytes: seq<Byte>, doc: ElementNode)
    requires ChecksPass(last, rrdpUrl, env, n, bytes, doc)
    ensures Cycle(last, rrdpUrl, env) ==
            CycleResult(Success(ProcessPublish(PublishElements(doc), env.base64).value.objects),
                        Some(n.snapshotUri), [rrdpUrl, n.snapshotUri])
  {
    assert LoadSnapshot(n.snapshotUri, n.snapshotHash, env) == Ok(bytes);
    assert ValidateSnapshotStructure(n.serial, n.snapshotUri, doc) == Ok(n.serial);
  }

  /**
   * A notification naming the snapshot URL already processed ends the cycle as not modified, before
   * the snapshot is fetched, and leaves the state as it was.
   */
  lemma SameSnapshotUrlIsNotModified(last: Option<string>, rrdpUrl: string, env: Environment, n: Notification)
    requires FetchNotification(rrdpUrl, env) == Ok(n) && last == Some(n.snapshotUri)
    ensures Cycle(last, rrdpUrl, env) == CycleResult(NotModified(n.snapshotUri), last, [rrdpUrl])
  {
  }

  /**
   * Two cycles in a row whose notifications name the same snapshot URL: when the first succeeds,
   * the second is not modified, fetches only the notification and keeps the state.
   */
  lemma RepeatedSnapshotUrlIsNotModified(last: Option<string>, rrdpUrl: string, first: Environment, second: Environment)
    requires Cycle(last, rrdpUrl, first).outcome.Success?
    requires FetchNotification(rrdpUrl, second).Ok?
    requires FetchNotification(rrdpUrl, second).value.snapshotUri == FetchNotification(rrdpUrl, first).value.snapshotUri
    ensures var state := Cycle(last, rrdpUrl, first).lastSnapshotUrl;
            var url := FetchNotification(rrdpUrl, second).value.snapshotUri;
            Cycle(state, rrdpUrl, second) == CycleResult(NotModified(url), state, [rrdpUrl])
  {
    SuccessMeansChecksPassed(last, rrdpUrl, first);
    SameSnapshotUrlIsNotModified(Cycle(last, rrdpUrl, first).lastSnapshotUrl, rrdpUrl, second, FetchNotification(rrdpUrl, second).value);
  }

  /**
   * A snapshot whose SHA-256 differs from the declared hash, ignoring case, is a structure error
   * reporting the URL, the length, the computed and the expected hash; nothing is committed.
   */
  lemma HashMismatchIsStructureError(last: Option<string>, rrdpUrl: string, env: Environment, n: Notification, bytes: seq<Byte>)
    requires FetchNotification(rrdpUrl, env) == Ok(n) && last != Some(n.snapshotUri)
    requires env.http(n.snapshotUri) == Body(bytes)
    requires !EqualsIgnoreCase(env.sha256(bytes), n.snapshotHash)
    ensures Cycle(last, rrdpUrl, env) ==
            CycleResult(StructureError(n.snapshotUri, HashMismatch(|bytes|, env.sha256(bytes), n.snapshotHash)),
                        last, [rrdpUrl, n.snapshotUri])
  {
  }

  /** A snapshot whose document element is not `snapshot` is a structure error; nothing is committed. */
  lemma WrongRootIsStructureError(last: Option<string>, rrdpUrl: string, env: Environment, n: Notification, bytes: seq<Byte>, doc: ElementNode)
    requires FetchNotification(rrdpUrl, env) == Ok(n) && last != Some(n.snapshotUri)
    requires env.http(n.snapshotUri) == Body(bytes) && EqualsIgnoreCase(env.sha256(bytes), n.snapshotHash)
    requires env.parse(bytes) == Parsed(doc) && doc.tag != "snapshot"
    ensures Cycle(last, rrdpUrl, env) == CycleResult(StructureError(n.snapshotUri, NoSnapshotRoot), last, [rrdpUrl, n.snapshotUri])
  {
    assert LoadSnapshot(n.snapshotUri, n.snapshotHash, env) == Ok(bytes);
  }

  /** A snapshot serial other than the notification's is a structure error reporting both; nothing is committed. */
  lemma SerialMismatchIsStructureError(last: Option<string>, rrdpUrl: string, env: Environment, n: Notification, bytes: seq<Byte>, doc: ElementNode, serial: int)
    requires FetchNotification(rrdpUrl, env) == Ok(n) && last != Some(n.snapshotUri)
    requires env.http(n.snapshotUri) == Body(bytes) && EqualsIgnoreCase(env.sha256(bytes), n.snapshotHash)
    requires env.parse(bytes) == Parsed(doc) && doc.tag == "snapshot"
    requires SerialOf(doc) == Serial(serial) && serial != n.serial
    ensures Cycle(last, rrdpUrl, env) ==
            CycleResult(StructureError(n.snapshotUri, SerialMismatch(serial, n.serial)), last, [rrdpUrl, n.snapshotUri])
  {
    assert LoadSnapshot(n.snapshotUri, n.snapshotHash, env) == Ok(bytes);
  }

  /**
   * One publish element without a `uri` or with text that is not base64 fails the whole cycle with
   * that element's exception, which escapes the catch clauses; no objects and no commit.
   */
  lemma BadPublishElementFailsCycle(last: Option<string>, rrdpUrl: string, env: Environment, n: Notification, bytes: seq<Byte>, doc: ElementNode, j: nat)
    requires FetchNotification(rrdpUrl, env) == Ok(n) && last != Some(n.snapshotUri)
    requires env.http(n.snapshotUri) == Body(bytes) && EqualsIgnoreCase(env.sha256(bytes), n.snapshotHash)
    requires env.parse(bytes) == Parsed(doc) && doc.tag == "snapshot" && SerialOf(doc) == Serial(n.serial)
    requires var items := PublishElements(doc);
             j < |items| && DecodePublish(items[j], env.base64).Throw?
             && forall k :: 0 <= k < j ==> DecodePublish(items[k], env.base64).Ok?
    ensures var e := DecodePublish(PublishElements(doc)[j], env.base64).exception;
            e in {NullPointer, IllegalArgument}
            && Cycle(last, rrdpUrl, env) == CycleResult(Unclassified(e), last, [rrdpUrl, n.snapshotUri])
  {
    PublishSucceedsIffAllDecode(PublishElements(doc), env.base64);
    assert LoadSnapshot(n.snapshotUri, n.snapshotHash, env) == Ok(bytes);
    assert ValidateSnapshotStructure(n.serial, n.snapshotUri, doc) == Ok(n.serial);
  }

  /** A failed GET of the notification is classified by the catch clauses; nothing else is fetched or committed. */
  lemma NotificationFetchFailure(last: Option<string>, rrdpUrl: string, env: Environment, e: TransportError)
    requires env.builderAvailable && env.http(rrdpUrl) == Failed(e)
    ensures Cycle(last, rrdpUrl, env) == CycleResult(Classify(Transport(e), rrdpUrl), last, [rrdpUrl])
  {
  }

  /**
   * A failed GET of the snapshot is classified by the same catch clauses: a timeout-like failure is
   * an aborted update that names the notification URL (or the failed request's URI for a 2xx
   * response error), never a structure or fatal error; nothing is committed.
   */
  lemma SnapshotFetchFailure(last: Option<string>, rrdpUrl: string, env: Environment, n: Notification, e: TransportError)
    requires FetchNotification(rrdpUrl, env) == Ok(n) && last != Some(n.snapshotUri)
    requires env.http(n.snapshotUri) == Failed(e)
    ensures Cycle(last, rrdpUrl, env) == CycleResult(Classify(Transport(e), rrdpUrl), last, [rrdpUrl, n.snapshotUri])
    ensures TimeoutLike(Transport(e)) ==> Cycle(last, rrdpUrl, env).outcome.Aborted?
  {
  }

  // ---------------------------------------------------------------------------
  // The fetcher object

  /** An RrdpFetcher: the notification URL it polls and the snapshot URL it last processed completely. */
  class RrdpFetcher {
    /** `config.getRrdpUrl()`. */
    const rrdpUrl: string
    /** `lastSnapshotUrl`; `None` is the initial null. */
    var lastSnapshotUrl: Option<string>

    constructor (rrdpUrl: string)
      ensures this.rrdpUrl == rrdpUrl && lastSnapshotUrl == None
    {
      this.rrdpUrl := rrdpUrl;
      lastSnapshotUrl := None;
    }

    /**
     * `fetchObjects`: returns the outcome and the URLs fetched in order. The state changes exactly
     * when the outcome is a success, and then to the URL of the snapshot just processed.
     */
    method FetchObjects(env: Environment) returns (outcome: Outcome, requests: seq<string>)
      modifies this
      ensures var c := Cycle(old(lastSnapshotUrl), rrdpUrl, env);
              outcome == c.outcome && lastSnapshotUrl == c.lastSnapshotUrl && requests == c.requests
      ensures outcome.Success? <==> lastSnapshotUrl != old(lastSnapshotUrl)
      ensures outcome.Success? ==> lastSnapshotUrl == Some(requests[1])
      ensures !outcome.Success? ==> lastSnapshotUrl == old(lastSnapshotUrl)
    {
      requests := [];
      if !env.builderAvailable {
        outcome := Classify(ParserConfiguration, rrdpUrl);
        return;
      }
      requests := requests + [rrdpUrl];
      var notificationBytes := HttpGet(rrdpUrl, env);
      if notificationBytes.Throw? {
        outcome := Classify(notificationBytes.exception, rrdpUrl);
        return;
      }
      var notificationDoc := ParseXml(notificationBytes.value, env);
      if notificationDoc.Throw? {
        outcome := Classify(notificationDoc.exception, rrdpUrl);
        return;
      }
      var notification := ReadNotification(notificationDoc.value);
      if notification.Throw? {
        outcome := Classify(notification.exception, rrdpUrl);
        return;
      }
      var snapshotUrl := notification.value.snapshotUri;
      if Some(snapshotUrl) == lastSnapshotUrl {
        outcome := Classify(SnapshotNotModified(snapshotUrl), rrdpUrl);
        return;
      }
      requests := requests + [snapshotUrl];
      var snapshotContent := LoadSnapshot(snapshotUrl, notification.value.snapshotHash, env);
      if snapshotContent.Throw? {
        outcome := Classify(snapshotContent.exception, rrdpUrl);
        return;
      }
      var snapshotDoc := ParseXml(snapshotContent.value, env);
      if snapshotDoc.Throw? {
        outcome := Classify(snapshotDoc.exception, rrdpUrl);
        return;
      }
      var doc := snapshotDoc.value;
      var validated := ValidateSnapshotStructure(notification.value.serial, snapshotUrl, doc);
      if validated.Throw? {
        outcome := Classify(validated.exception, rrdpUrl);
        return;
      }
      var processed := ProcessPublishElements(doc, env.base64);
      if processed.Throw? {
        outcome := Classify(processed.exception, rrdpUrl);
        return;
      }
      lastSnapshotUrl := Some(snapshotUrl);
      outcome := Success(processed.value.objects);
    }
  }
}
