/** What the queries share: rows of a relation, and the results of the calls that produce them. */
module Relation {
  type Tuple = seq<int>

  /** UNDEFINED is no result of the program: it stands for reading a row behind the end of a relation. */
  datatype DbResult = DB_OK | DB_GOT_ROW | DB_FINISHED | DB_INDEX_ERROR | DB_IMPLEMENTATION_ERROR | UNDEFINED
}
