/** The reference tree the resolver hands to the orchestrator
    (XsdFileReference) and the raw references read from one document
    (XsdReference). */
module References {
  import opened Wrappers
  import opened Paths

  /** How a document refers to another: an include is merged into the
      referencing unit, an import or redefine is a unit of its own. */
  datatype RefType = Include | Import | Redefine

  /** One schema document in the tree: its file, the location as written
      by the referencing document, the relation, and the documents it
      refers to in document order. The parent link of the source is the
      arena built by RecursionUtils.ParentTable. */
  datatype FileReference = FileReference(
    file: Path,
    schemaLocation: string,
    kind: RefType,
    children: seq<FileReference>)

  /** A raw reference: its type tag ("include", "import" or "redefine"),
      its schemaLocation and, for an import, its namespace. */
  datatype XsdReference = XsdReference(refType: string, schemaLocation: string, namespace: Option<string>)
}
