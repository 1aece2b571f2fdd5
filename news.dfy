/**
 * Articles as the news feed delivers them and the spreadsheet rows built from
 * them (main.py, the row construction inside `main`).
 */
module News {
  import opened Wrappers

  /** One key of a decoded JSON article object: absent, `null`, or a string. */
  datatype Field = Missing | Null | Text(s: string)

  /** `article.get(key)`: both an absent key and a `null` value give `None`. */
  function Get(f: Field): (v: Option<string>)
    ensures v.Some? <==> f.Text?
    ensures v.Some? ==> v.value == f.s
  {
    match f
    case Text(s) => Some(s)
    case _ => None
  }

  /** `article.get(key, default)`: only an absent key falls back to `default`. */
  function GetOr(f: Field, default: string): (v: Option<string>)
    ensures f.Missing? ==> v == Some(default)
    ensures !f.Missing? ==> v == Get(f)
  {
    match f
    case Missing => Some(default)
    case Null => None
    case Text(s) => Some(s)
  }

  /** Python truthiness of an optional string: neither `None` nor `""`. */
  predicate Truthy(v: Option<string>)
  {
    v.Some? && v.value != ""
  }

  /** A candidate article from the feed's `results` list. */
  datatype Article = Article(
    link: Field,
    title: Field,
    description: Field,
    imageUrl: Field,
    sourceId: Field,
    pubDate: Field)

  /** One spreadsheet cell as the Python list holds it: a string or `None`. */
  type Cell = Option<string>

  const RowWidth: nat := 9

  /** One output row: the nine-element Python list appended to the sheet. */
  type Row = r: seq<Cell> | |r| == RowWidth
    witness [None, None, None, None, None, None, None, None, None]

  // Sheet columns, counted from 1 as `worksheet.col_values` counts them.
  const StatusColumn: nat := 1
  const TitleColumn: nat := 2
  const SummaryColumn: nat := 3
  const ImageColumn: nat := 4
  const SourceColumn: nat := 5
  const LinkColumn: nat := 6
  const FaviconColumn: nat := 7
  const TimestampColumn: nat := 8
  const StateColumn: nat := 9

  const FaviconPrefix: string := "https://www.google.com/s2/favicons?domain="
  const FaviconSuffix: string := "&sz=64"
  const PublishedLabel: string := "Published"

  /** The favicon service URL for a domain; the domain is recoverable from it. */
  function FaviconUrl(domain: string): (u: string)
    ensures |u| == |FaviconPrefix| + |domain| + |FaviconSuffix|
    ensures u[..|FaviconPrefix|] == FaviconPrefix
    ensures u[|u| - |FaviconSuffix|..] == FaviconSuffix
    ensures u[|FaviconPrefix|..|u| - |FaviconSuffix|] == domain
  {
    FaviconPrefix + domain + FaviconSuffix
  }

  /** The row's timestamp: `pubDate` unless that key is absent, then `now`. */
  function Timestamp(pubDate: Field, now: string): (ts: Cell)
    ensures pubDate.Missing? ==> ts == Some(now)
    ensures pubDate.Null? ==> ts == None
    ensures pubDate.Text? ==> ts == Some(pubDate.s)
  {
    GetOr(pubDate, now)
  }

  /**
   * The row for an accepted article whose link is `link`, given its summary,
   * the host part of the link and the current time.
   */
  function BuildRow(a: Article, link: string, summary: string, domain: string, now: string): (r: Row)
    ensures r[StatusColumn - 1] == Some("")
    ensures r[TitleColumn - 1] == Get(a.title)
    ensures r[SummaryColumn - 1] == Some(summary)
    ensures r[ImageColumn - 1] == Get(a.imageUrl)
    ensures r[SourceColumn - 1] == Get(a.sourceId)
    ensures r[LinkColumn - 1] == Some(link)
    ensures r[FaviconColumn - 1] == Some(FaviconUrl(domain))
    ensures r[TimestampColumn - 1] == Timestamp(a.pubDate, now)
    ensures r[StateColumn - 1] == Some(PublishedLabel)
  {
    [Some(""), Get(a.title), Some(summary), Get(a.imageUrl), Get(a.sourceId),
     Some(link), Some(FaviconUrl(domain)), GetOr(a.pubDate, now), Some(PublishedLabel)]
  }
}
