/** A section of the book as the pipeline passes it around: a `{"title", "content"}` dict. */
module Sections {

  /** The `"title"` entry of a section dict: missing, `None`, or a string. */
  datatype TitleField = Absent | Null | Named(name: string)

  datatype Section = Section(title: TitleField, content: string)
}
