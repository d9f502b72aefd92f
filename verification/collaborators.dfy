/** The TYPO3 services the controller calls, as uninterpreted functions. Their
    behaviour is not part of this model: nothing is assumed of them beyond
    being functions of their arguments. */
module Collaborators {

  /** A field value of the record being edited: the request carries text,
      the controller adds integers (`pid` and the language id). */
  datatype Value = Text(text: string) | Number(number: int)

  /** The record data handed to the slug generator. */
  type RecordData = map<string, Value>

  /** The record state built by `RecordStateFactory::forName(table)
      ->fromArray(data, pid, uid)`: an opaque token for the uniqueness
      queries, modelled by the inputs it is built from. */
  datatype RecordState = RecordState(table: string, data: RecordData, pid: int, uid: int)

  /** A page row as returned by the permission lookup; only its `pid` is read. */
  datatype Page = Page(uid: int, pid: int)

  /** The core `SlugHelper` instantiated for one table, field and field
      configuration. */
  datatype SlugHelper = SlugHelper(
    generate: (RecordData, int) -> string,
    sanitize: string -> string,
    isUniqueInSite: (string, RecordState) -> bool,
    isUniqueInPid: (string, RecordState) -> bool,
    buildSlugForUniqueInSite: (string, RecordState) -> string,
    buildSlugForUniqueInPid: (string, RecordState) -> string)
}
