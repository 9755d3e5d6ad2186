/**
 * What the two SUDOC front ends share: the shape of the catalogue's answers
 * once HTTP and XML parsing are abstracted away, the metadata record, and the
 * literal sentinels and messages both scripts use.
 */
module Sudoc {
  import opened Wrappers
  import opened PyStr

  /** An XML element found by `tree.find(...)`; its `.text` may be `None`. */
  datatype Element = Element(text: Option<string>)

  /** The parsed `isbn2ppn` answer, seen through `find('.//result/ppn')`. */
  datatype PpnDoc = PpnDoc(ppn: Option<Element>)

  /**
   * The parsed RDF record, seen through the four `find` calls:
   * `dc:title`, `foaf:name`, `dc:publisher` and `dc:date`.
   */
  datatype RdfDoc = RdfDoc(title: Option<Element>, name: Option<Element>, publisher: Option<Element>, date: Option<Element>)

  /** What `ET.fromstring(response.content)` makes of a body. */
  datatype Body<D> = Parsed(doc: D) | Malformed

  /** What `requests.get(url)` does: raise `Timeout`, raise another exception, or answer. */
  datatype Transport<D> = Timeout | RequestFailure | Response(status: int, body: Body<D>)

  /** An exception that escapes a function uncaught. */
  datatype PyError = RequestError | ParseError

  /** A Python call either returns a value or raises. */
  datatype Outcome<T> = Returned(value: T) | Raised(error: PyError)

  /**
   * The `infos` dictionary with its four keys `titre`, `auteur`, `editeur` and
   * `date`. The title is always a `str`; the other three hold an element's raw
   * `.text`, which may be `None`.
   */
  datatype Record = Record(titre: string, auteur: Option<string>, editeur: Option<string>, date: Option<string>)

  const Unknown: string := "Inconnu"
  const UnknownDate: string := "Inconnue"

  /** The title sentinel passes for a cleaned title: no `/`, no edge whitespace. */
  lemma UnknownIsClean()
    ensures '/' !in Unknown && NoEdgeSpace(Unknown)
  {
    assert Unknown[0] == 'I' && Unknown[|Unknown| - 1] == 'u';
  }

  const NoPpnMessage: string := "Aucun PPN trouvé pour cet ISBN."
  const NoRecordMessage: string := "Aucune métadonnée trouvée pour ce PPN."

  /** An answer with HTTP status 200, the only one either script goes on to parse. */
  predicate IsOk<D>(t: Transport<D>) {
    t.Response? && t.status == 200
  }
}
