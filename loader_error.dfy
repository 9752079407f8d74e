/**
  The loader's errors (`loader/error.rs`): the tables it needs are named by their
  OpenType tags, and a table can be missing or fail to parse.
*/
module LoaderError {
  import opened Wrappers

  /** The two OpenType tables the loader reads. */
  datatype Tag = NameTag | CmapTag

  datatype Error =
    | MissingFamilyName
    | MissingRequiredTable(tag: Tag)
    | ParseTableFailed(tag: Tag)
    | RawFontParseFailed

  const MissingNameTable: Error := MissingRequiredTable(NameTag)
  const BrokenNameTable: Error := ParseTableFailed(NameTag)
  const MissingCmapTable: Error := MissingRequiredTable(CmapTag)
  const BrokenCmapTable: Error := ParseTableFailed(CmapTag)

  /** How a table of a raw face reads: absent, present but unparseable, or parsed into
      records, each of which may itself fail to read (`None`). */
  datatype Table<T> = Missing | Broken | Parsed(records: seq<Option<T>>)
}
