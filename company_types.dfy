/** The records the front end receives from its API: tags, companies, and a
    company detail with its related companies. */
module CompanyTypes {
  import opened Wrappers

  datatype Sentiment = Positive | Negative | Neutral | SlightlyPositive | SlightlyNegative

  /** A tag's direction relative to the center company. The declared type
      allows only IN and OUT; `NoDirection` stands for a tag whose direction
      is neither, which every count in the graph treats as "not IN, not OUT". */
  datatype Direction = In | Out | NoDirection

  /** One relation signal. `relReason` may be null in the data even though the
      declared type says string; `newsId` is read by the graph although the
      declared type omits it. */
  datatype Tag = Tag(
    id: int,
    direction: Direction,
    tagLabel: string,
    relReason: Option<string>,
    newsId: Option<int>)

  /** A company. An absent `tags` list is the empty list here, because every
      reader defaults it to `[]`. Prices are not part of the model. */
  datatype Company = Company(
    companyId: Option<string>,
    name: string,
    isListed: bool,
    isDomestic: bool,
    sentiment: Option<Sentiment>,
    tags: seq<Tag>)

  /** A company detail extends a company with its related companies. */
  datatype CompanyDetail = CompanyDetail(company: Company, related: seq<Company>)

  /** `!!companyId`: present and non-empty. */
  predicate HasCompanyId(c: Company) {
    c.companyId.Some? && c.companyId.value != ""
  }

  /** `companyId || name`: the identity of a company as a graph node. */
  function NodeId(c: Company): string {
    if HasCompanyId(c) then c.companyId.value else c.name
  }
}
