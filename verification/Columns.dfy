/** Column declarations (src/schema/table.rs): a name, a type, and whether null or the key. */
module Columns {
  import opened Wrappers
  import opened Bytes
  import opened Utf8Text

  datatype DataType = IntType | FloatType | BoolType | TextType | BytesType

  datatype ColumnSchema = ColumnSchema(name: Text, dataType: DataType, nullable: bool, primaryKey: bool)
}
