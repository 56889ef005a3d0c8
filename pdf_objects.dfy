/**
 * The values the object parser produces, and the dictionary object that
 * collects a dictionary's entries as they are parsed.
 */
module PdfObjects {
  import opened Common

  /**
   * A parsed PDF object (section 7.3 of ISO 32000-1). Names and strings are
   * their decoded bytes; a real keeps the text of its token, since
   * floating point is not part of this model.
   */
  datatype PdfObject =
    | Boolean(truth: bool)
    | LiteralString(bytes: seq<byte>)
    | HexString(bytes: seq<byte>)
    | Null
    | Name(name: seq<byte>)
    | Integer(number: int)
    | Real(text: seq<byte>)
    | IndirectReference(objectId: int, version: int)
    | Array(items: seq<PdfObject>)
    | Dictionary(entries: map<seq<byte>, PdfObject>)
    | StreamInput(dictionary: map<seq<byte>, PdfObject>, streamStart: int)
    | Symbol(text: seq<byte>)

  /** `PDFDictionary`: a map from key names to objects. */
  class PDFDictionary {
    var values: map<seq<byte>, PdfObject>

    constructor ()
      ensures values == map[]
    {
      values := map[];
    }

    /** The value stored under `name`, None when there is none. */
    function QueryDirectObject(name: seq<byte>): (r: Option<PdfObject>)
      reads this
      ensures r.Some? <==> name in values
      ensures r.Some? ==> r.value == values[name]
    {
      if name in values then Some(values[name]) else None
    }

    /** Whether a value is stored under `name`. */
    function Exists(name: seq<byte>): (r: bool)
      reads this
      ensures r <==> QueryDirectObject(name).Some?
    {
      name in values
    }

    /**
     * Stores `value` under `key` unless the key is present already: a map
     * insert, not an assignment, so the first value stays.
     */
    method Insert(key: seq<byte>, value: PdfObject)
      modifies this
      ensures key in old(values) ==> values == old(values)
      ensures key !in old(values) ==> values == old(values)[key := value]
      ensures Exists(key) && QueryDirectObject(key) == Some(if key in old(values) then old(values)[key] else value)
    {
      if key !in values {
        values := values[key := value];
      }
    }
  }
}
