/** The records of the studio: a module (one chapter or sub-chapter, a markdown file with
    frontmatter) and a research source. */
module Types {
  import opened JsValues

  datatype Option<+T> = None | Some(value: T)

  /** `entwurf | überarbeitung | final`. */
  datatype Status = Entwurf | Ueberarbeitung | Final

  datatype Priority = Low | Medium | High

  /** A module. `kapitel` and `unterkapitel` are declared as `number | string`, but they come
      unchecked from the frontmatter and the code treats them by truthiness and `String()`,
      so they are kept as JavaScript values. */
  datatype Module = Module(
    id: string,
    title: string,
    kapitel: Value,
    unterkapitel: Value,
    tags: seq<string>,
    status: Status,
    priority: Priority,
    importance: Priority,
    urgency: Priority,
    created: string,
    updated: string,
    summary: Option<string>,
    quotes: Option<seq<string>>,
    questions: Option<seq<string>>,
    slug: string,
    content: string,
    htmlContent: Option<string>,
    filePath: string)

  datatype SourceKind = Url | Pdf | Note

  /** A research source as stored in the source index. */
  datatype Source = Source(
    id: string,
    kind: SourceKind,
    title: string,
    url: Option<string>,
    content: string,
    summary: string,
    keyQuotes: seq<string>,
    tags: seq<string>,
    linkedModules: seq<string>,
    createdAt: string,
    updatedAt: string)
}
