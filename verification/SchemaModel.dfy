/** The schema model the parser, the introspector and the diff share. */
module SchemaModel {
  import opened Common

  datatype ColumnDef = ColumnDef(name: string, coltype: string, nullable: bool, raw: string)
  datatype IndexDef = IndexDef(name: string, columns: seq<string>, unique: bool)
  datatype TableDef = TableDef(name: string, columns: seq<ColumnDef>, indexes: seq<IndexDef>, rawCreate: Option<string>)

  const PRIMARY: string := "PRIMARY"
}
