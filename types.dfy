/**
 * The records of src/types.ts and the default settings of src/main.ts.
 */
module Types {
  import opened JsBuiltins

  /** A note's frontmatter: field name to (string) value. */
  type Frontmatter = map<string, string>

  /** The host's file handle: the file name and its vault-relative path. */
  datatype TFile = TFile(name: string, path: string)

  /** Ordered candidate field names for each logical field. */
  datatype FrontmatterKeys = FrontmatterKeys(
    startDateKey: seq<string>,
    endDateKey: seq<string>,
    titleKey: seq<string>,
    descriptionKey: seq<string>)

  const DefaultFrontmatterKeys := FrontmatterKeys(["start-date"], ["end-date"], ["title"], ["description"])

  /** The two era suffixes, `era[0]` for dates before the common era and `era[1]` for the others. */
  datatype Era = Era(beforeCommonEra: string, commonEra: string)

  datatype Settings = Settings(
    era: Era,
    timelineTag: string,
    sortDirection: bool,
    notePreviewOnHover: bool,
    frontmatterKeys: FrontmatterKeys,
    showRibbonCommand: bool)

  const DefaultSettings := Settings(Era(" BC", " AD"), "timeline", true, true, DefaultFrontmatterKeys, true)

  /**
   * One note on the timeline. `description`, `img` and `endDate` are declared
   * as strings but may hold `undefined` / `null` at run time: they are options.
   */
  datatype CardContainer = CardContainer(
    date: string,
    title: string,
    description: Option<string>,
    img: Option<string>,
    path: string,
    endDate: Option<string>,
    eventType: string,
    cssClass: string)
}
