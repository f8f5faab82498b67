/**
  The record-extraction logic of the TonY history server (`utils.ParserUtils`):
  `ParseMetadata` turns a job's JSON metadata file into a `JobMetadata`
  record and `ParseConfig` turns a job's XML configuration file into the
  list of its `JobConfig` properties. Both tolerate an absent file and the
  failures they catch by returning an empty result; a `null` dereference
  (a missing JSON key, a missing child element) escapes as an exception.

  The file system, the JSON text parser and the XML text parser are
  libraries outside this model; they enter as the `FileSystem` value and as
  function parameters.
*/
module ParserUtils {
  import opened Wrappers
  import opened Dom

  // ---------------------------------------------------------------------------
  // Environment
  // ---------------------------------------------------------------------------

  type Path = string

  /**
    A file that exists. `content` is `None` when opening or reading it raises
    an `IOException`; `closeFails` is true when closing its stream raises one.
  */
  datatype FileEntry = FileEntry(content: Option<string>, closeFails: bool)

  /** The file system: the paths that exist, each with its file. */
  type FileSystem = map<Path, FileEntry>

  /** `HdfsUtils.pathExists`. */
  predicate PathExists(fs: FileSystem, path: Path)
  {
    path in fs
  }

  /** The exception that escapes a method: a `NullPointerException` raised while looking up `lookup`. */
  datatype Fault = NullPointer(lookup: string)

  /** What a Java method does: return a value, or let an uncaught exception escape. */
  datatype Outcome<+T> = Returned(value: T) | Thrown(fault: Fault)

  // ---------------------------------------------------------------------------
  // Job metadata
  // ---------------------------------------------------------------------------

  /** A member value of a parsed JSON object: a JSON string, or any other JSON value. */
  datatype JsonValue = JText(text: string) | JNonText

  /** A parsed top-level JSON object. */
  type JsonObject = map<string, JsonValue>

  /** The JSON text parser: `None` is the caught syntax error. */
  type JsonParser = string -> Option<JsonObject>

  /** `JsonNode.textValue()`: the string of a JSON string, `null` for every other kind of value. */
  function TextValue(v: JsonValue): Option<string>
  {
    match v
    case JText(s) => Some(s)
    case JNonText => None
  }

  /** How Java's string concatenation renders a `String` that may be `null`. */
  function JavaString(s: Option<string>): string
  {
    match s
    case None => "null"
    case Some(t) => t
  }

  /** The fixed prefix of the link to a job's configuration page. */
  const ConfigLinkPrefix: string := "/jobs/"

  /** The identity and lifecycle summary of one job run; `None` is a field never set (`null`). */
  datatype JobMetadata = JobMetadata(
    id: Option<string>,
    jobLink: Option<string>,
    configLink: Option<string>,
    started: Option<string>,
    completed: Option<string>,
    status: Option<string>,
    user: Option<string>)

  /** `new JobMetadata()`: no field set. */
  const EmptyMetadata: JobMetadata := JobMetadata(None, None, None, None, None, None, None)

  /** The keys the metadata parser reads, in the order it reads them. */
  const MetadataKeys: seq<string> := ["id", "url", "started", "completed", "status", "user"]

  /** The first of `keys` that `o` lacks, if any. */
  function FirstMissing(o: JsonObject, keys: seq<string>): (r: Option<string>)
    ensures r.None? <==> forall k :: k in keys ==> k in o
    ensures r.Some? ==> exists j :: 0 <= j < |keys| && keys[j] == r.value && r.value !in o &&
                                    forall i :: 0 <= i < j ==> keys[i] in o
    decreases |keys|
  {
    if keys == [] then None
    else if keys[0] !in o then Some(keys[0])
    else
      var r := FirstMissing(o, keys[1..]);
      assert r.Some? ==> exists j :: 1 <= j < |keys| && keys[j] == r.value && r.value !in o &&
                                     forall i :: 0 <= i < j ==> keys[i] in o by {
        if r.Some? {
          var j :| 0 <= j < |keys[1..]| && keys[1..][j] == r.value && r.value !in o &&
                   forall i :: 0 <= i < j ==> keys[1..][i] in o;
          assert keys[j + 1] == r.value;
          assert forall i :: 1 <= i < j + 1 ==> keys[i] == keys[1..][i - 1];
        }
      }
      r
  }

  /** The order in which the metadata parser meets a missing key. */
  lemma MetadataKeysInOrder(o: JsonObject)
    ensures FirstMissing(o, MetadataKeys) ==
      if "id" !in o then Some("id")
      else if "url" !in o then Some("url")
      else if "started" !in o then Some("started")
      else if "completed" !in o then Some("completed")
      else if "status" !in o then Some("status")
      else if "user" !in o then Some("user")
      else None
  {

  }

  /** A record whose configuration link is derived from its id. */
  predicate LinkDerived(md: JobMetadata)
  {
    md.configLink == Some(ConfigLinkPrefix + JavaString(md.id))
  }

  /**
    The record read from a parsed metadata object, stated in one step: the
    first missing key escapes as a `NullPointerException`; otherwise each
    field is the text value under its key and the configuration link is
    derived from the id.
  */
  function MetadataOf(o: JsonObject): (r: Outcome<JobMetadata>)
    ensures r.Thrown? <==> exists k :: k in MetadataKeys && k !in o
    ensures r.Returned? ==> LinkDerived(r.value)
  {
    match FirstMissing(o, MetadataKeys)
    case Some(k) => Thrown(NullPointer(k))
    case None =>
      var id := TextValue(o["id"]);
      Returned(JobMetadata(
        id := id,
        jobLink := TextValue(o["url"]),
        configLink := Some(ConfigLinkPrefix + JavaString(id)),
        started := TextValue(o["started"]),
        completed := TextValue(o["completed"]),
        status := TextValue(o["status"]),
        user := TextValue(o["user"])))
  }

  /**
    `ParserUtils.parseMetadata`: a missing file gives the empty record
    without reading anything; a syntax error gives the empty record; a
    parsed object fills the record one setter at a time.
  */
  method ParseMetadata(fs: FileSystem, path: Path,
                       contentOfHdfsFile: (FileSystem, Path) -> string, parseJson: JsonParser)
    returns (r: Outcome<JobMetadata>)
    ensures !PathExists(fs, path) ==> r == Returned(EmptyMetadata)
    ensures PathExists(fs, path) && parseJson(contentOfHdfsFile(fs, path)).None? ==> r == Returned(EmptyMetadata)
    ensures PathExists(fs, path) && parseJson(contentOfHdfsFile(fs, path)).Some? ==>
              r == MetadataOf(parseJson(contentOfHdfsFile(fs, path)).value)
  {
    if !PathExists(fs, path) {
      return Returned(EmptyMetadata);
    }
    var fileContent := contentOfHdfsFile(fs, path);
    var jobMetadata := EmptyMetadata;
    var parsed := parseJson(fileContent);
    if parsed.None? {
      return Returned(jobMetadata);
    }
    var jObj := parsed.value;
    MetadataKeysInOrder(jObj);
    if "id" !in jObj { return Thrown(NullPointer("id")); }
    jobMetadata := jobMetadata.(id := TextValue(jObj["id"]));
    if "url" !in jObj { return Thrown(NullPointer("url")); }
    jobMetadata := jobMetadata.(jobLink := TextValue(jObj["url"]));
    jobMetadata := jobMetadata.(configLink := Some(ConfigLinkPrefix + JavaString(jobMetadata.id)));
    if "started" !in jObj { return Thrown(NullPointer("started")); }
    jobMetadata := jobMetadata.(started := TextValue(jObj["started"]));
    if "completed" !in jObj { return Thrown(NullPointer("completed")); }
    jobMetadata := jobMetadata.(completed := TextValue(jObj["completed"]));
    jobMetadata := jobMetadata.(completed := TextValue(jObj["completed"]));
    if "status" !in jObj { return Thrown(NullPointer("status")); }
    jobMetadata := jobMetadata.(status := TextValue(jObj["status"]));
    if "user" !in jObj { return Thrown(NullPointer("user")); }
    jobMetadata := jobMetadata.(user := TextValue(jObj["user"]));
    return Returned(jobMetadata);
  }

  /** With all six keys present, each field is the value under its key, copied verbatim. */
  lemma MetadataFieldsCopied(o: JsonObject)
    requires forall k :: k in MetadataKeys ==> k in o
    ensures MetadataOf(o).Returned?
    ensures MetadataOf(o).value.id == TextValue(o["id"])
    ensures MetadataOf(o).value.jobLink == TextValue(o["url"])
    ensures MetadataOf(o).value.started == TextValue(o["started"])
    ensures MetadataOf(o).value.completed == TextValue(o["completed"])
    ensures MetadataOf(o).value.status == TextValue(o["status"])
    ensures MetadataOf(o).value.user == TextValue(o["user"])
    ensures LinkDerived(MetadataOf(o).value)
  {
  }

  /**
    An exception escapes exactly when one of the six keys is absent; it names
    an absent key all of whose predecessors in reading order are present.
  */
  lemma MetadataMissingKey(o: JsonObject)
    ensures MetadataOf(o).Thrown? <==> exists k :: k in MetadataKeys && k !in o
    ensures MetadataOf(o).Thrown? ==>
              exists j :: 0 <= j < |MetadataKeys| && MetadataKeys[j] == MetadataOf(o).fault.lookup &&
                          MetadataKeys[j] !in o && forall i :: 0 <= i < j ==> MetadataKeys[i] in o
  {
  }

  /**
    Keys other than the six are never read: adding or changing one, such as
    a `configLink` member, does not change the record.
  */
  lemma MetadataIgnoresOtherKeys(o: JsonObject, k: string, v: JsonValue)
    requires k !in MetadataKeys
    ensures MetadataOf(o[k := v]) == MetadataOf(o)
  {

  }

  /** The configuration link comes from the id even when the document carries its own `configLink`. */
  lemma ConfigLinkNotFromDocument(o: JsonObject, link: string)
    requires forall k :: k in MetadataKeys ==> k in o
    ensures MetadataOf(o["configLink" := JText(link)]).Returned?
    ensures MetadataOf(o["configLink" := JText(link)]).value.configLink
         == Some(ConfigLinkPrefix + JavaString(TextValue(o["id"])))
  {

  }

  /** An id that is not a JSON string is `null`, and the configuration link then reads `/jobs/null`. */
  lemma NullIdLink(o: JsonObject)
    requires forall k :: k in MetadataKeys ==> k in o
    requires !o["id"].JText?
    ensures MetadataOf(o).Returned?
    ensures MetadataOf(o).value.id == None
    ensures MetadataOf(o).value.configLink == Some("/jobs/null")
  {
    assert ConfigLinkPrefix + JavaString(None) == "/jobs/null";
  }

  /** The JSON value whose text value is `s`. */
  function JsonOfText(s: Option<string>): (v: JsonValue)
    ensures TextValue(v) == s
  {
    match s
    case None => JNonText
    case Some(t) => JText(t)
  }

  /** A metadata document for a record: its six fields under the six keys. */
  function MetadataDocument(md: JobMetadata): JsonObject
  {
    map["id" := JsonOfText(md.id), "url" := JsonOfText(md.jobLink),
        "started" := JsonOfText(md.started), "completed" := JsonOfText(md.completed),
        "status" := JsonOfText(md.status), "user" := JsonOfText(md.user)]
  }

  /**
    Round trip: a record is read back unchanged from its own document
    exactly when its configuration link is derived from its id.
  */
  lemma MetadataRoundTrip(md: JobMetadata)
    ensures LinkDerived(md) <==> MetadataOf(MetadataDocument(md)) == Returned(md)
  {

  }

  // ---------------------------------------------------------------------------
  // Job configuration
  // ---------------------------------------------------------------------------

  /** One configuration property. */
  datatype JobConfig = JobConfig(name: string, value: string, final: bool, source: string)

  /** The checked exceptions `parseConfig` catches. */
  datatype XmlError = SaxError | ParserConfigurationError | IoError

  /** The child tags a property is read from, in the order they are looked up. */
  const PropertyTags: seq<string> := ["name", "value", "final", "source"]

  /** Building a DOM document from the bytes of a stream. */
  type XmlParser = string -> Result<Document, XmlError>

  /**
    The property read from one `property` element: for `name`, `value`,
    `final` and `source` in that order, `item(0)` of the element's
    descendants with that tag, whose absence escapes as a
    `NullPointerException`; `final` holds exactly when its text is `true`.
    (The parser applies it to elements only; a text node has no descendants.)
  */
  function ConfigOf(p: Node): Outcome<JobConfig>
  {
    var name := FirstByTag(p, "name");
    var value := FirstByTag(p, "value");
    var final := FirstByTag(p, "final");
    var source := FirstByTag(p, "source");
    if name.None? then Thrown(NullPointer("name"))
    else if value.None? then Thrown(NullPointer("value"))
    else if final.None? then Thrown(NullPointer("final"))
    else if source.None? then Thrown(NullPointer("source"))
    else Returned(JobConfig(TextContent(name.value), TextContent(value.value),
                            TextContent(final.value) == "true", TextContent(source.value)))
  }

  /** How one element of the property list is read into an entry. */
  type PropertyReader = Node -> Outcome<JobConfig>

  /**
    The loop over the property list `props`, front to back: non-element
    nodes are skipped, each element is read with `read`, and the first
    escaping exception ends the walk. The parser reads with `ConfigOf`.
  */
  function ReadProperties(props: seq<Node>, read: PropertyReader): (r: Outcome<seq<JobConfig>>)
    ensures r.Thrown? ==> exists k :: 0 <= k < |props| && props[k].Element? && read(props[k]) == Thrown(r.fault)
    decreases |props|
  {
    if props == [] then Returned([])
    else
      match ReadProperties(props[..|props| - 1], read)
      case Thrown(f) => Thrown(f)
      case Returned(cs) =>
        var p := props[|props| - 1];
        if !p.Element? then Returned(cs)
        else
          match read(p)
          case Thrown(f) => Thrown(f)
          case Returned(c) => Returned(cs + [c])
  }

  /** The `property` elements of a document after its document element was normalized. */
  function PropertiesOf(doc: Document): seq<Node>
  {
    DocumentElementsByTagName(Document(Normalize(doc.root)), "property")
  }

  /**
    A node yields an entry exactly when it has `name`, `value`, `final` and
    `source` descendants; the entry's strings are the text content of the
    first of each, and `final` holds exactly when the first `final`
    descendant's text is `true`, compared case-sensitively.
  */
  lemma ConfigEntryFields(p: Node)
    ensures ConfigOf(p).Returned? <==>
              forall t :: t in PropertyTags ==> ElementsByTagName(p, t) != []
    ensures ConfigOf(p).Returned? ==>
              && ConfigOf(p).value.name == TextContent(ElementsByTagName(p, "name")[0])
              && ConfigOf(p).value.value == TextContent(ElementsByTagName(p, "value")[0])
              && (ConfigOf(p).value.final <==> TextContent(ElementsByTagName(p, "final")[0]) == "true")
              && ConfigOf(p).value.source == TextContent(ElementsByTagName(p, "source")[0])
  {
  }

  /**
    The lookup whose absence escapes is the first missing one in the order
    `name`, `value`, `final`, `source`; all four present means no exception.
  */
  lemma ConfigLookupOrder(p: Node)
    ensures ConfigOf(p) == Thrown(NullPointer("name")) <==> ElementsByTagName(p, "name") == []
    ensures ConfigOf(p) == Thrown(NullPointer("value")) <==>
              ElementsByTagName(p, "name") != [] && ElementsByTagName(p, "value") == []
    ensures ConfigOf(p) == Thrown(NullPointer("final")) <==>
              ElementsByTagName(p, "name") != [] && ElementsByTagName(p, "value") != [] &&
              ElementsByTagName(p, "final") == []
    ensures ConfigOf(p) == Thrown(NullPointer("source")) <==>
              ElementsByTagName(p, "name") != [] && ElementsByTagName(p, "value") != [] &&
              ElementsByTagName(p, "final") != [] && ElementsByTagName(p, "source") == []
    ensures ConfigOf(p).Thrown? ==> ConfigOf(p).fault.lookup in PropertyTags
  {
  }

  /** The `property` element `<property><name>n</name><value>v</value><final>f</final><source>s</source></property>`. */
  function PropertyElement(n: string, v: string, f: string, s: string): Node
  {
    Element("property", [Element("name", [Text(n)]), Element("value", [Text(v)]),
                         Element("final", [Text(f)]), Element("source", [Text(s)])])
  }

  /** Each of the four lookups in a `PropertyElement` finds the child of that name. */
  lemma PropertyElementLookups(n: string, v: string, f: string, s: string, tag: string)
    requires tag in ["name", "value", "final", "source"]
    ensures ElementsByTagName(PropertyElement(n, v, f, s), tag) ==
              [Element(tag, [Text(if tag == "name" then n else if tag == "value" then v
                                  else if tag == "final" then f else s)])]
  {
    var e0, e1, e2, e3 := Element("name", [Text(n)]), Element("value", [Text(v)]),
                          Element("final", [Text(f)]), Element("source", [Text(s)]);
    var t3 := [e3] + [];
    var t2 := [e2] + t3;
    var t1 := [e1] + t2;
    assert PropertyElement(n, v, f, s).children == [e0] + t1;
    MatchingTextElement("name", n, t1, tag);
    MatchingTextElement("value", v, t2, tag);
    MatchingTextElement("final", f, t3, tag);
    MatchingTextElement("source", s, [], tag);
  }

  /** In a `PropertyElement`, `item(0)` of each of the four lookups is the child of that name. */
  lemma PropertyElementFirst(n: string, v: string, f: string, s: string, tag: string, x: string)
    requires tag in ["name", "value", "final", "source"]
    requires x == if tag == "name" then n else if tag == "value" then v else if tag == "final" then f else s
    ensures FirstByTag(PropertyElement(n, v, f, s), tag) == Some(Element(tag, [Text(x)]))
    ensures TextContent(Element(tag, [Text(x)])) == x
  {
    PropertyElementLookups(n, v, f, s, tag);
    MatchingTextElement(tag, x, [], "");
  }

  /** `final` is an exact, case-sensitive match with `true`: `TRUE`, `1` and the empty text give false. */
  lemma FinalIsExactMatch(n: string, v: string, f: string, s: string)
    ensures ConfigOf(PropertyElement(n, v, f, s)) == Returned(JobConfig(n, v, f == "true", s))
    ensures f in ["TRUE", "True", "1", ""] ==> !ConfigOf(PropertyElement(n, v, f, s)).value.final
  {
    PropertyElementFirst(n, v, f, s, "name", n);
    PropertyElementFirst(n, v, f, s, "value", v);
    PropertyElementFirst(n, v, f, s, "final", f);
    PropertyElementFirst(n, v, f, s, "source", s);
  }

  /** Once a prefix of the list has let an exception escape, so has the whole list, with the same exception. */
  lemma {:induction false} FaultPersists(props: seq<Node>, k: nat, read: PropertyReader)
    requires k <= |props|
    requires ReadProperties(props[..k], read).Thrown?
    ensures ReadProperties(props, read) == ReadProperties(props[..k], read)
    decreases |props| - k
  {
    if k < |props| {
      assert props[..k + 1][..k] == props[..k];
      FaultPersists(props, k + 1, read);
    } else {
      assert props[..k] == props;
    }
  }

  /** Over a list of elements, a walk that lets no exception escape gives one entry per element. */
  lemma {:induction false} ReadLength(props: seq<Node>, read: PropertyReader)
    requires forall i :: 0 <= i < |props| ==> props[i].Element?
    requires ReadProperties(props, read).Returned?
    ensures |ReadProperties(props, read).value| == |props|
    decreases |props|
  {
    if props != [] {
      var front := props[..|props| - 1];
      assert forall i :: 0 <= i < |front| ==> front[i] == props[i];
      ReadLength(front, read);
    }
  }

  /** Over a list of elements, entry `i` of a walk that lets no exception escape is the one read from element `i`. */
  lemma {:induction false} ReadAt(props: seq<Node>, i: nat, read: PropertyReader)
    requires forall j :: 0 <= j < |props| ==> props[j].Element?
    requires i < |props|
    requires ReadProperties(props, read).Returned?
    ensures |ReadProperties(props, read).value| == |props|
    ensures read(props[i]) == Returned(ReadProperties(props, read).value[i])
    decreases |props|
  {
    var n := |props| - 1;
    var front := props[..n];
    assert forall j :: 0 <= j < n ==> front[j] == props[j];
    ReadLength(props, read);
    ReadLength(front, read);
    if i < n {
      ReadAt(front, i, read);
    }
  }

  /** Over a list of elements, no exception escapes when every element yields an entry. */
  lemma {:induction false} ReadAllReturned(props: seq<Node>, read: PropertyReader)
    requires forall i :: 0 <= i < |props| ==> props[i].Element? && read(props[i]).Returned?
    ensures ReadProperties(props, read).Returned?
    decreases |props|
  {
    if props != [] {
      var front := props[..|props| - 1];
      assert forall i :: 0 <= i < |front| ==> front[i] == props[i];
      ReadAllReturned(front, read);
    }
  }

  /** If the walk lets no exception escape, every element of the list yields an entry. */
  lemma {:induction false} NoFaultInPrefix(props: seq<Node>, read: PropertyReader)
    requires ReadProperties(props, read).Returned?
    ensures forall j :: 0 <= j < |props| && props[j].Element? ==> read(props[j]).Returned?
    decreases |props|
  {
    if props != [] {
      var front := props[..|props| - 1];
      assert forall i :: 0 <= i < |front| ==> front[i] == props[i];
      NoFaultInPrefix(front, read);
    }
  }

  /**
    An escaping exception is the one of the first element of the list that
    yields no entry: every element before it yields one.
  */
  lemma {:induction false} ReadFirstFault(props: seq<Node>, read: PropertyReader)
    requires ReadProperties(props, read).Thrown?
    ensures exists k :: 0 <= k < |props| && props[k].Element? && read(props[k]) == Thrown(ReadProperties(props, read).fault) &&
                        forall j :: 0 <= j < k && props[j].Element? ==> read(props[j]).Returned?
    decreases |props|
  {
    var n := |props| - 1;
    var front := props[..n];
    assert forall i :: 0 <= i < n ==> front[i] == props[i];
    if ReadProperties(front, read).Thrown? {
      ReadFirstFault(front, read);
    } else {
      NoFaultInPrefix(front, read);
    }
  }

  /** Two lists of elements whose elements read the same give the same walk. */
  lemma {:induction false} ReadSame(a: seq<Node>, b: seq<Node>, read: PropertyReader)
    requires |a| == |b|
    requires forall i :: 0 <= i < |a| ==> a[i].Element? && b[i].Element? && read(a[i]) == read(b[i])
    ensures ReadProperties(a, read) == ReadProperties(b, read)
    decreases |a|
  {
    if a != [] {
      var n := |a| - 1;
      assert forall i :: 0 <= i < n ==> a[..n][i] == a[i] && b[..n][i] == b[i];
      ReadSame(a[..n], b[..n], read);
    }
  }

  /** A normalized node yields the same entry as the node itself. */
  lemma ConfigOfNormalized(p: Node)
    ensures ConfigOf(Normalize(p)) == ConfigOf(p)
  {
    NormalizeKeepsFirst(p, "name");
    NormalizeKeepsFirst(p, "value");
    NormalizeKeepsFirst(p, "final");
    NormalizeKeepsFirst(p, "source");
    if FirstByTag(p, "name").Some? { NormalizeKeepsTextContent(FirstByTag(p, "name").value); }
    if FirstByTag(p, "value").Some? { NormalizeKeepsTextContent(FirstByTag(p, "value").value); }
    if FirstByTag(p, "final").Some? { NormalizeKeepsTextContent(FirstByTag(p, "final").value); }
    if FirstByTag(p, "source").Some? { NormalizeKeepsTextContent(FirstByTag(p, "source").value); }
  }

  /**
    The properties read from a parsed document: one entry per `property`
    element of the document as parsed, in document order (the preorder
    listing of its elements filtered by tag name). Normalizing the document
    element changes none of them, and the element-node check drops none.
  */
  lemma PropertiesInDocumentOrder(doc: Document)
    ensures forall i :: 0 <= i < |PropertiesOf(doc)| ==>
              PropertiesOf(doc)[i].Element? && PropertiesOf(doc)[i].tag == "property"
    ensures DocumentElementsByTagName(doc, "property") == WithTag(Preorder([doc.root]), "property")
    ensures ReadProperties(PropertiesOf(doc), ConfigOf) == ReadProperties(DocumentElementsByTagName(doc, "property"), ConfigOf)
    ensures ReadProperties(PropertiesOf(doc), ConfigOf).Returned? ==>
              |ReadProperties(PropertiesOf(doc), ConfigOf).value| == |DocumentElementsByTagName(doc, "property")| &&
              forall i :: 0 <= i < |DocumentElementsByTagName(doc, "property")| ==>
                ConfigOf(DocumentElementsByTagName(doc, "property")[i]) == Returned(ReadProperties(PropertiesOf(doc), ConfigOf).value[i])
  {
    var original := DocumentElementsByTagName(doc, "property");
    var normalized := PropertiesOf(doc);
    DocumentElementsInDocumentOrder(doc, "property");
    NormalizeKeepsDocumentMatching(doc.root, "property");
    forall i | 0 <= i < |original|
      ensures normalized[i].Element? && original[i].Element? && ConfigOf(normalized[i]) == ConfigOf(original[i])
    {
      ConfigOfNormalized(original[i]);
    }
    ReadSame(normalized, original, ConfigOf);
    var r := ReadProperties(original, ConfigOf);
    if r.Returned? {
      ReadLength(original, ConfigOf);
      forall i | 0 <= i < |original|
        ensures ConfigOf(original[i]) == Returned(r.value[i])
      {
        ReadAt(original, i, ConfigOf);
      }
    }
  }

  /**
    `ParserUtils.parseConfig`: a missing file gives an empty list without
    opening anything; every caught `SAXException`,
    `ParserConfigurationException` or `IOException`, including one raised
    when the stream is closed after the loop, gives a fresh empty list and
    never the partly filled one; otherwise the list holds one property per
    `property` element, in document order.
  */
  method ParseConfig(fs: FileSystem, path: Path, parseXml: XmlParser)
    returns (r: Outcome<seq<JobConfig>>)
    ensures !PathExists(fs, path) ==> r == Returned([])
    ensures PathExists(fs, path) && fs[path].content.None? ==> r == Returned([])
    ensures PathExists(fs, path) && fs[path].content.Some? && parseXml(fs[path].content.value).Err? ==>
              r == Returned([])
    ensures PathExists(fs, path) && fs[path].content.Some? && parseXml(fs[path].content.value).Ok? ==>
              r == match ReadProperties(PropertiesOf(parseXml(fs[path].content.value).value), ConfigOf)
                   case Thrown(f) => Thrown(f)
                   case Returned(cs) => Returned(if fs[path].closeFails then [] else cs)
  {
    if !PathExists(fs, path) {
      return Returned([]);
    }
    var configs: seq<JobConfig> := [];
    var inStrm := fs[path];
    if inStrm.content.None? {
      return Returned([]);
    }
    var parsed := parseXml(inStrm.content.value);
    if parsed.Err? {
      return Returned([]);
    }
    var doc := parsed.value;
    var documentElement := Normalize(doc.root);
    var properties := DocumentElementsByTagName(Document(documentElement), "property");
    assert properties == PropertiesOf(doc);

    for i := 0 to |properties|
      invariant ReadProperties(properties[..i], ConfigOf) == Returned(configs)
    {
      assert properties[..i + 1][..i] == properties[..i];
      var property := properties[i];
      if property.Element? {
        var p := property;
        var name := FirstByTag(p, "name");
        if name.None? {
          assert ConfigOf(p) == Thrown(NullPointer("name"));
          FaultPersists(properties, i + 1, ConfigOf);
          return Thrown(NullPointer("name"));
        }
        var value := FirstByTag(p, "value");
        if value.None? {
          assert ConfigOf(p) == Thrown(NullPointer("value"));
          FaultPersists(properties, i + 1, ConfigOf);
          return Thrown(NullPointer("value"));
        }
        var final := FirstByTag(p, "final");
        if final.None? {
          assert ConfigOf(p) == Thrown(NullPointer("final"));
          FaultPersists(properties, i + 1, ConfigOf);
          return Thrown(NullPointer("final"));
        }
        var source := FirstByTag(p, "source");
        if source.None? {
          assert ConfigOf(p) == Thrown(NullPointer("source"));
          FaultPersists(properties, i + 1, ConfigOf);
          return Thrown(NullPointer("source"));
        }
        var jobConf := JobConfig(TextContent(name.value), TextContent(value.value),
                                 TextContent(final.value) == "true", TextContent(source.value));
        assert ConfigOf(p) == Returned(jobConf);
        configs := configs + [jobConf];
      }
    }
    assert properties[..|properties|] == properties;

    if inStrm.closeFails {
      return Returned([]);
    }
    return Returned(configs);
  }
}
