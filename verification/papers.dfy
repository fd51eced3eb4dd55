/**
  Paper records returned by the bibliographic graph service, and the
  (citations, references) pair a lookup yields.
 */
module Papers {
  import opened Wrappers

  /** One entry of a paper's `authors` array; only `name` is read. */
  datatype AuthorJson = AuthorJson(name: string)

  /**
    One entry of the `citations` or `references` array: `externalIds` may be
    null (None) and, when present, may or may not hold a `DOI` key.
   */
  datatype PaperJson = PaperJson(externalIds: Option<map<string, string>>, title: string, authors: seq<AuthorJson>)

  /** The flattened record the matcher works with; `doi` is "" when unknown. */
  datatype Paper = Paper(doi: string, title: string, authors: seq<string>)

  /** The outcome of the lookup request: a non-ok status, or the decoded body. */
  datatype Response = NotOk(reason: string) | Ok(citations: seq<PaperJson>, references: seq<PaperJson>)

  const DoiKey: string := "DOI"

  /** The DOI carried by an `externalIds` value, "" when it is null or has no DOI. */
  function ExternalDoi(ids: Option<map<string, string>>): (doi: string)
    ensures doi != "" ==> ids.Some? && DoiKey in ids.value && ids.value[DoiKey] == doi
  {
    if ids.Some? && DoiKey in ids.value then ids.value[DoiKey] else ""
  }

  /** Converts one JSON paper into a Paper. */
  function PaperFromJson(j: PaperJson): (p: Paper)
    ensures j.externalIds.Some? && DoiKey in j.externalIds.value ==> p.doi == j.externalIds.value[DoiKey]
    ensures j.externalIds.None? || DoiKey !in j.externalIds.value ==> p.doi == ""
    ensures p.doi != "" <==> j.externalIds.Some? && DoiKey in j.externalIds.value && j.externalIds.value[DoiKey] != ""
    ensures p.title == j.title
    ensures |p.authors| == |j.authors|
    ensures forall i :: 0 <= i < |p.authors| ==> p.authors[i] == j.authors[i].name
  {
    var names := seq(|j.authors|, i requires 0 <= i < |j.authors| => j.authors[i].name);
    Paper(ExternalDoi(j.externalIds), j.title, names)
  }

  /** Converts every entry of a JSON array, in order. */
  function PapersFromJson(js: seq<PaperJson>): seq<Paper> {
    seq(|js|, i requires 0 <= i < |js| => PaperFromJson(js[i]))
  }

  /**
    The (citations, references) pair of a lookup: both empty on a non-ok
    status (a soft failure), otherwise each array converted entry by entry.
   */
  function CitesAndRefs(resp: Response): (pair: (seq<Paper>, seq<Paper>))
    ensures resp.NotOk? ==> pair == ([], [])
    ensures resp.Ok? ==> |pair.0| == |resp.citations| && |pair.1| == |resp.references|
    ensures resp.Ok? ==> forall i :: 0 <= i < |pair.0| ==> pair.0[i] == PaperFromJson(resp.citations[i])
    ensures resp.Ok? ==> forall i :: 0 <= i < |pair.1| ==> pair.1[i] == PaperFromJson(resp.references[i])
  {
    match resp
    case NotOk(_) => ([], [])
    case Ok(cits, refs) => (PapersFromJson(cits), PapersFromJson(refs))
  }
}
