# TonY history server: metadata and configuration extraction

This project models `utils.ParserUtils` from the TonY history server in Dafny and proves
properties of the model. That class turns two job artifacts into typed records:

- `parseMetadata` reads a job's JSON metadata file into one `JobMetadata` record.
  It copies six string members and derives `configLink = "/jobs/" + id`.
- `parseConfig` reads a job's XML configuration file into a list of `JobConfig` records.
  There is one record per `property` element, in document order. Each record holds the text
  of the element's first `name`, `value`, `final` and `source` descendants, and `final`
  is an exact match with `"true"`.

A missing file gives an empty result without reading anything. A caught failure also gives
an empty result, and `parseConfig` never returns a partly built list.

Files:

- `wrappers.dfy` (module `Wrappers`): `Option` and `Result`.
- `dom.dfy` (module `Dom`): a parsed XML tree of element and text nodes, with pure functions
  for the DOM operations the parser uses. These follow section 1.4 of the W3C DOM Level 3
  Core: `getElementsByTagName` returns matching elements in preorder, `textContent`
  concatenates descendant text, and `normalize` leaves no empty and no adjacent text nodes.
- `parser_utils.dfy` (module `ParserUtils`): the file system, the JSON and XML parser
  interfaces, the two records, and the two operations. Each operation is a method that
  follows the Java statement by statement (setter calls, the indexed loop over the
  `NodeList`). Each method is proved against a specification function (`MetadataOf`,
  `ReadProperties` with `ConfigOf`). The lemmas state what the source promises about those functions.

How the environment is represented:

- The file system is a map from path to `FileEntry`. A path is in the map exactly when
  `pathExists` holds. `content = None` means opening or reading the file raises
  `IOException`. `closeFails` means closing the stream raises `IOException`.
- `HdfsUtils.contentOfHdfsFile`, the JSON text parser and the XML text parser are
  function parameters.
  - The JSON parser returns `None` for the caught syntax error.
  - The XML parser returns `Err` of `SaxError`, `ParserConfigurationError` or `IoError`.
- Java's behaviour on a `null` is modelled explicitly:
  - A `JobMetadata` field that was never set is `None`, so the default record has every field `None`.
  - `textValue()` of a JSON member that is not a string is `null` (`None`), not an exception.
  - `"/jobs/" + null` is `"/jobs/null"` (`JavaString`).
  - `JsonNode.textValue()` is the definition `TextValue`: the string of a JSON string and
    `null` for every other value.
  - A missing JSON key, or a `property` with no `name`/`value`/`final`/`source` descendant,
    dereferences `null`. The `NullPointerException` escapes the method and is modelled as
    the outcome `Thrown(NullPointer(k))`, separate from the caught failures.

Two consequences of the code that are easy to miss:

- A missing key or child is not one of the caught failures: the `NullPointerException`
  escapes both methods.
- `normalize()` only merges adjacent text nodes and drops empty ones, so whitespace-only
  text between elements counts toward `textContent`.

## Model

| member | source | states |
|---|---|---|
| `ParserUtils.PathExists` | tony-history-server/app/utils/ParserUtils.java:34 | Definition with no contract of its own: `pathExists` holds exactly for the paths the file-system map holds. The first `ensures` of `ParseMetadata` and of `ParseConfig` state what a missing path gives. |
| `ParserUtils.MetadataOf` | tony-history-server/app/utils/ParserUtils.java:47-54 | An exception escapes exactly when one of the six keys is absent. Every record produced has its `configLink` derived from its id. |
| `ParserUtils.ParseMetadata` | tony-history-server/app/utils/ParserUtils.java:33-57 | A missing path gives the empty record without reading the file. A syntax error gives the empty record with no field set. Otherwise the result is the record read from the parsed object, built by the same setter sequence, including the repeated `setCompleted`. |
| `ParserUtils.MetadataFieldsCopied` | tony-history-server/app/utils/ParserUtils.java:47-54 | With all six keys present no exception escapes. `id`, `jobLink`, `started`, `completed`, `status` and `user` are the text values under `id`, `url`, `started`, `completed`, `status` and `user`, copied verbatim. `configLink` is `"/jobs/"` followed by the id. |
| `ParserUtils.MetadataMissingKey` | tony-history-server/app/utils/ParserUtils.java:47-54 | An exception escapes exactly when one of the six keys is absent. It names an absent key all of whose predecessors in reading order are present. |
| `ParserUtils.MetadataKeysInOrder` | tony-history-server/app/utils/ParserUtils.java:47-54 | The missing key that escapes is the first absent one in the order `id`, `url`, `started`, `completed`, `status`, `user`. |
| `ParserUtils.FirstMissing` | tony-history-server/app/utils/ParserUtils.java:47-54 | The result is absent exactly when every key is present. Otherwise it is an absent key, and every key before it is present. |
| `ParserUtils.MetadataIgnoresOtherKeys` | tony-history-server/app/utils/ParserUtils.java:47-54 | Adding or changing any member other than the six read keys leaves the result unchanged. |
| `ParserUtils.ConfigLinkNotFromDocument` | tony-history-server/app/utils/ParserUtils.java:49 | `configLink` is derived from the id even when the document has its own `configLink` member. |
| `ParserUtils.MetadataRoundTrip` | tony-history-server/app/utils/ParserUtils.java:47-54 | A record is read back unchanged from the document holding its six fields exactly when its `configLink` is derived from its id. |
| `ParserUtils.JsonOfText` | tony-history-server/app/utils/ParserUtils.java:47 | Every possible field value, a string or `null`, is the `textValue()` of some JSON member. |
| `ParserUtils.NullIdLink` | tony-history-server/app/utils/ParserUtils.java:47-49 | An id member that is not a JSON string leaves `id` as `null`, and `configLink` is then the string `"/jobs/null"`. |
| `ParserUtils.JavaString` | tony-history-server/app/utils/ParserUtils.java:49 | Definition with no contract of its own: Java's string concatenation renders `null` as `"null"`. `NullIdLink` states its effect on `configLink`. |
| `ParserUtils.ParseConfig` | tony-history-server/app/utils/ParserUtils.java:59-97 | A missing path gives an empty list without opening the file. An open/read `IOException`, a `SAXException` or a `ParserConfigurationException` gives an empty list. Otherwise a loop whose invariant is "the list so far is the walk over the processed prefix" yields the walk over the `property` elements of the normalized document. An escaping `NullPointerException` propagates. A close failure after the loop gives an empty list, never the filled one. |
| `ParserUtils.ConfigOf` | tony-history-server/app/utils/ParserUtils.java:76-82 | Definition with no contract of its own: the entry read from one `property` element by the loop body. `ConfigLookupOrder` and `ConfigEntryFields` state its properties. |
| `ParserUtils.ConfigLookupOrder` | tony-history-server/app/utils/ParserUtils.java:77-81 | The escaping lookup is the first missing child in the order `name`, `value`, `final`, `source`. Only those four tags can escape. |
| `ParserUtils.ReadProperties` | tony-history-server/app/utils/ParserUtils.java:73-84 | The loop over the property list. An exception that escapes the walk is the one raised by reading some element of the list. |
| `ParserUtils.ConfigEntryFields` | tony-history-server/app/utils/ParserUtils.java:77-81 | A property yields an entry exactly when it has all four descendants. Then `name`, `value` and `source` are the text content of the first descendant with that tag, and `final` holds exactly when the first `final` descendant's text equals `"true"`. |
| `ParserUtils.FinalIsExactMatch` | tony-history-server/app/utils/ParserUtils.java:80 | For `<property>` with text children, the entry is `(n, v, f == "true", s)`. `"TRUE"`, `"True"`, `"1"` and `""` give `final = false`. |
| `ParserUtils.FaultPersists` | tony-history-server/app/utils/ParserUtils.java:73-84 | Once a prefix of the property list lets an exception escape, the whole walk ends with that exception. |
| `ParserUtils.ReadLength` | tony-history-server/app/utils/ParserUtils.java:73-84 | Over a list of elements, a walk with no escaping exception gives exactly one entry per element. |
| `ParserUtils.ReadAt` | tony-history-server/app/utils/ParserUtils.java:73-84 | Entry `i` is the one read from element `i`, so the list order is kept. |
| `ParserUtils.ReadAllReturned` | tony-history-server/app/utils/ParserUtils.java:73-84 | If every element yields an entry, no exception escapes the walk. |
| `ParserUtils.ReadFirstFault` | tony-history-server/app/utils/ParserUtils.java:73-84 | An escaping exception is the one of some element. Every element before that one yields an entry. |
| `ParserUtils.NoFaultInPrefix` | tony-history-server/app/utils/ParserUtils.java:73-84 | If the walk lets no exception escape, every element of the list yields an entry. |
| `ParserUtils.ReadSame` | tony-history-server/app/utils/ParserUtils.java:73-84 | Two lists of elements that read the same, element by element, give the same walk. |
| `ParserUtils.ConfigOfNormalized` | tony-history-server/app/utils/ParserUtils.java:69 | A normalized node yields the same entry, or the same exception, as the original. |
| `ParserUtils.PropertiesInDocumentOrder` | tony-history-server/app/utils/ParserUtils.java:69-84 | All searched nodes are `property` elements, so the element-node check drops none. The document's `property` elements are its preorder listing filtered by tag. Normalizing changes no entry. On success there is one entry per `property` element of the parsed document, in document order. |
| `Dom.Matching` | tony-history-server/app/utils/ParserUtils.java:71 | `getElementsByTagName` yields only elements, and only ones with the requested tag. |
| `Dom.MatchingIsPreorderFiltered` | tony-history-server/app/utils/ParserUtils.java:71 | The one-pass search equals the preorder (document-order) listing of all elements filtered by tag name. |
| `Dom.DocumentElementsInDocumentOrder` | tony-history-server/app/utils/ParserUtils.java:71 | `Document.getElementsByTagName` lists the elements with the tag, the document element included, in document order. |
| `Dom.ElementsInDocumentOrder` | tony-history-server/app/utils/ParserUtils.java:78-81 | `Element.getElementsByTagName` lists the proper descendants with the tag in document order. A text node has none. |
| `Dom.FirstInDocumentOrder` | tony-history-server/app/utils/ParserUtils.java:78-81 | `item(0)` is `null` exactly when no descendant has the tag. Otherwise it is the first descendant with the tag in document order. |
| `Dom.TextContent` | tony-history-server/app/utils/ParserUtils.java:78-81 | Definition with no contract of its own: `getTextContent` is the data of a text node, or the text of all descendants of an element. `TextOfAppend` and `NormalizeKeepsTextContent` state its properties. |
| `Dom.TextOfAppend` | tony-history-server/app/utils/ParserUtils.java:78-81 | The text of consecutive siblings is the text of the first ones followed by the text of the rest, so text is concatenated in document order. |
| `Dom.Normalize` | tony-history-server/app/utils/ParserUtils.java:69 | An element keeps its tag, and its subtree is in normal form afterwards. A text node is unchanged. |
| `Dom.NormalizeChildren` | tony-history-server/app/utils/ParserUtils.java:69 | The result of `normalize()` is in normal form: no empty text node and no two adjacent text nodes at any depth. |
| `Dom.NormalizeIdempotent` | tony-history-server/app/utils/ParserUtils.java:69 | Normalizing a tree already in normal form changes nothing. |
| `Dom.NormalizeKeepsText` | tony-history-server/app/utils/ParserUtils.java:69 | Normalizing does not change the text content of a sequence of siblings. |
| `Dom.NormalizeKeepsTextContent` | tony-history-server/app/utils/ParserUtils.java:69 | Normalizing does not change a node's text content, so every entry's strings are unchanged. |
| `Dom.NormalizeKeepsFirst` | tony-history-server/app/utils/ParserUtils.java:69 | `item(0)` of a lookup on a normalized node is the normalized `item(0)` of the original, or `null` when the original's is. |
| `Dom.NormalizeKeepsMatching` | tony-history-server/app/utils/ParserUtils.java:69-71 | Searching the normalized tree finds the normalized versions of the original matches, in the same order. |
| `Dom.NormalizeKeepsDocumentMatching` | tony-history-server/app/utils/ParserUtils.java:69-71 | The same holds for `Document.getElementsByTagName` after the document element is normalized. |

## Left out

- Hadoop storage (`FileSystem`, `Path`, `FSDataInputStream`, `HdfsUtils.pathExists`, `HdfsUtils.contentOfHdfsFile`): this is a foreign library. It is modelled by `PathExists` on a path-to-file map and a `contentOfHdfsFile` parameter. `HdfsUtils` is not part of this model, so how it reports its own read failures is not modelled.
- Text-level parsing: JSON parsing by Play's `Json.parse` and XML parsing by JAXP's `DocumentBuilder` are libraries. They enter as function parameters that return a parsed value or an error.
- The caught JSON exception type: the code catches gson's `JsonSyntaxException`, but Play's `Json.parse` signals malformed input with a different exception type. So this branch may never fire, and the Jackson exception would escape instead. The model keeps the evident intent: a parser result of `None` is the caught "syntax error gives the empty record" branch.
- JSON texts whose top level is not an object: the model's parsed value is always an object.
- DOM node kinds other than element and text (attributes, comments, CDATA sections, processing instructions, namespaces): the configuration parser only reads element tag names and text, so they are not modelled.
- Logging (`LOG.error`, `LOG.debug`): side effects only, with no effect on results.
- Resource closing of the configuration stream: only its effect on the result is modelled, namely that an `IOException` on close after the loop gives an empty list. On the other paths the close failure is suppressed and does not change the result.
- Idempotence across calls: both methods' results are stated as functions of their inputs, so two calls with the same storage give the same output. No separate lemma states this.
- Concurrency: there is no shared state, so there is nothing to model.
