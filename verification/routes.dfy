/**
 * The extraction endpoint: which of the two inputs is used, when the input
 * counts as a URL, the response the endpoint gives (422, 200 with a stored
 * request id, or 202 with a fresh one and one background task), and the
 * record the background task persists.
 *
 * The store lookup, the fresh request id, the wikitext fetcher and the
 * extraction itself are parameters: a lookup returns the request id of a
 * stored document with that url; a fetcher or an extraction returning `None`
 * stands for one that raised.
 */
module Routes {
  import opened Options
  import Text

  /** The request body: a style guide as text, or the URL of one. */
  datatype StyleGuideInput = StyleGuideInput(content: Option<string>, url: Option<string>)

  /** The input the request is about: the url when given, otherwise the
      content; `None` when neither is given (the ValueError). */
  function InputContent(d: StyleGuideInput): (r: Option<string>)
    ensures r.None? <==> d.url.None? && d.content.None?
    ensures r.Some? ==> r == d.url || (d.url.None? && r == d.content)
  {
    if d.url.Some? then d.url
    else if d.content.Some? then d.content
    else None
  }

  predicate IsWebAddress(s: string) {
    Text.StartsWith(s, "http://") || Text.StartsWith(s, "https://")
  }

  /** The input counts as a URL when the url is given, or when the content
      starts with `http://` or `https://`. */
  predicate IsUrl(d: StyleGuideInput) {
    d.url.Some? || (d.content.Some? && IsWebAddress(d.content.value))
  }

  /** A URL input always has a chosen input, and it is the url field or a web
      address; a rejected input is never a URL. */
  lemma UrlInputChosen(d: StyleGuideInput)
    ensures IsUrl(d) ==> InputContent(d).Some?
    ensures IsUrl(d) ==> d.url.Some? || IsWebAddress(InputContent(d).value)
    ensures InputContent(d).None? ==> !IsUrl(d)
  {
  }

  /* ---------------------------------------------------------------------- */
  /* The endpoint.                                                            */

  datatype Response =
    | Rejected(detail: string)   // HTTPException 422
    | Existing(requestId: string) // body status 200
    | Accepted(requestId: string) // body status 202

  function StatusCode(r: Response): nat {
    match r
    case Rejected(_) => 422
    case Existing(_) => 200
    case Accepted(_) => 202
  }

  /** A scheduled `process_and_save_requirements(data, request_id)`. */
  datatype Task = Task(data: StyleGuideInput, requestId: string)

  datatype Reply = Reply(response: Response, tasks: seq<Task>)

  const MissingInput := "Either url or content must be provided"

  /** `extract_requirements`: 422 without input; 200 with the stored id when a
      URL input is already stored; otherwise 202 with `freshId` and exactly
      one background task for it. */
  function Extract(d: StyleGuideInput, lookup: string -> Option<string>, freshId: string): (r: Reply)
    ensures InputContent(d).None? ==> r == Reply(Rejected(MissingInput), [])
    ensures InputContent(d).Some? && IsUrl(d) && lookup(InputContent(d).value).Some? ==>
      r == Reply(Existing(lookup(InputContent(d).value).value), [])
    ensures InputContent(d).Some? && !(IsUrl(d) && lookup(InputContent(d).value).Some?) ==>
      r == Reply(Accepted(freshId), [Task(d, freshId)])
  {
    match InputContent(d)
    case None => Reply(Rejected(MissingInput), [])
    case Some(content) =>
      if IsUrl(d) && lookup(content).Some? then Reply(Existing(lookup(content).value), [])
      else Reply(Accepted(freshId), [Task(d, freshId)])
  }

  /** Exactly the 202 response schedules work, one task carrying the request
      and the id it returns; 422 and 200 schedule nothing. */
  lemma ExtractSchedules(d: StyleGuideInput, lookup: string -> Option<string>, freshId: string)
    ensures var r := Extract(d, lookup, freshId);
      && StatusCode(r.response) in {422, 200, 202}
      && (StatusCode(r.response) == 202 <==> |r.tasks| == 1)
      && (StatusCode(r.response) != 202 <==> r.tasks == [])
      && (StatusCode(r.response) == 202 ==> r.tasks[0] == Task(d, r.response.requestId))
  {
  }

  /** Only URL inputs consult the store: the reply to any other input is the
      same whatever the store holds. */
  lemma ExtractIgnoresStoreForText(d: StyleGuideInput, lookup1: string -> Option<string>,
                                   lookup2: string -> Option<string>, freshId: string)
    requires !IsUrl(d)
    ensures Extract(d, lookup1, freshId) == Extract(d, lookup2, freshId)
  {
  }

  /** A stored URL is answered from the store: the fresh id is not used. */
  lemma ExtractStoredIsStable(d: StyleGuideInput, lookup: string -> Option<string>, id1: string, id2: string)
    requires IsUrl(d) && lookup(InputContent(d).value).Some?
    ensures Extract(d, lookup, id1) == Extract(d, lookup, id2)
  {
  }

  /* ---------------------------------------------------------------------- */
  /* The background task.                                                     */

  /** The stored document: `requirements` is the extractor's dumped
      requirements document, keyed by field name (its `groups`). */
  datatype Record<R> = Record(
    requestId: string,
    title: string,
    requirements: map<string, R>,
    status: string,
    url: Option<string>)

  /** Building a `RequirementsDocument`: its `title` is a required field, so a
      document built without one fails validation and nothing is built. */
  function NewDocument<R>(requestId: string, title: Option<string>, requirements: map<string, R>,
                          status: string, url: Option<string>): (r: Option<Record<R>>)
    ensures r.Some? <==> title.Some?
    ensures r.Some? ==> r.value == Record(requestId, title.value, requirements, status, url)
  {
    match title
    case None => None
    case Some(t) => Some(Record(requestId, t, requirements, status, url))
  }

  /** The url the task records: `data.url or (content if is_url else None)`.
      Whenever the input is a URL this is the chosen input itself. */
  function PersistedUrl(d: StyleGuideInput): (r: Option<string>)
    ensures r == if IsUrl(d) then InputContent(d) else None
  {
    if d.url.Some? && d.url.value != "" then d.url
    else if IsUrl(d) then InputContent(d)
    else None
  }

  /** The text handed to the extraction: the fetched wikitext for a URL, the
      content otherwise; `None` when the fetch raised or gave nothing, or when
      there is no text. */
  function StyleGuideText(d: StyleGuideInput, fetch: string -> Option<string>): (r: Option<string>)
    ensures r.Some? ==> InputContent(d).Some? && r.value != ""
    ensures r.Some? && IsUrl(d) ==> fetch(InputContent(d).value) == r
    ensures r.Some? && !IsUrl(d) ==> InputContent(d) == r
    ensures InputContent(d).Some? && !IsUrl(d) && InputContent(d).value != "" ==> r.Some?
    ensures InputContent(d).Some? && IsUrl(d) ==>
      (r.Some? <==> fetch(InputContent(d).value).Some? && fetch(InputContent(d).value).value != "")
  {
    match InputContent(d)
    case None => None
    case Some(content) =>
      var text := if IsUrl(d) then fetch(content) else Some(content);
      if text.None? || text.value == "" then None else text
  }

  /** What an extraction produced for a request: a title and the grouped
      requirements, or nothing when it raised. */
  type Extractor<R> = string -> Option<(string, map<string, R>)>

  /** The run succeeds when there is text and the extraction returns. */
  predicate Succeeds<R>(d: StyleGuideInput, fetch: string -> Option<string>, extract: Extractor<R>) {
    StyleGuideText(d, fetch).Some? && extract(StyleGuideText(d, fetch).value).Some?
  }

  /** The record of a successful run. */
  function Completed<R>(d: StyleGuideInput, requestId: string, fetch: string -> Option<string>,
                        extract: Extractor<R>): (r: Record<R>)
    requires Succeeds(d, fetch, extract)
    ensures r.status == "completed" && r.requestId == requestId && r.url == PersistedUrl(d)
    ensures (r.title, r.requirements) == extract(StyleGuideText(d, fetch).value).value
  {
    var (title, requirements) := extract(StyleGuideText(d, fetch).value).value;
    NewDocument(requestId, Some(title), requirements, "completed", PersistedUrl(d)).value
  }

  /** `process_and_save_requirements` as written: on failure the error
      document is built without a title, fails validation, and that failure
      is caught and logged, so nothing is stored. */
  function ProcessAndSaveAsWritten<R>(d: StyleGuideInput, requestId: string, fetch: string -> Option<string>,
                                      extract: Extractor<R>): (r: Option<Record<R>>)
    ensures r.Some? <==> Succeeds(d, fetch, extract)
    ensures r.Some? ==> r.value == Completed(d, requestId, fetch, extract)
  {
    if Succeeds(d, fetch, extract) then Some(Completed(d, requestId, fetch, extract))
    else if InputContent(d).None? then None
    else NewDocument(requestId, None, map[], "error", PersistedUrl(d))
  }

  /** An input with empty content: the run fails on "No content to process". */
  const EmptyContent := StyleGuideInput(Some(""), None)

  /** The failed run of `EmptyContent` leaves no trace in the store. */
  lemma ErrorRecordLost<R>(requestId: string, fetch: string -> Option<string>, extract: Extractor<R>)
    ensures InputContent(EmptyContent).Some?
    ensures !Succeeds(EmptyContent, fetch, extract)
    ensures ProcessAndSaveAsWritten(EmptyContent, requestId, fetch, extract).None?
  {
  }

  /** `process_and_save_requirements` with the error document given a title
      (empty): every accepted request ends with exactly one stored record,
      "completed" with the extraction's result or "error" with no
      requirements, and both carry the request id and the url. */
  function ProcessAndSave<R>(d: StyleGuideInput, requestId: string, fetch: string -> Option<string>,
                             extract: Extractor<R>): (r: Option<Record<R>>)
    ensures r.Some? <==> InputContent(d).Some?
    ensures r.Some? ==> r.value.requestId == requestId && r.value.url == PersistedUrl(d)
    ensures r.Some? ==> (r.value.status == "completed" <==> Succeeds(d, fetch, extract))
    ensures Succeeds(d, fetch, extract) ==> r == ProcessAndSaveAsWritten(d, requestId, fetch, extract)
    ensures r.Some? && !Succeeds(d, fetch, extract) ==>
      r.value.status == "error" && r.value.requirements == map[]
  {
    if Succeeds(d, fetch, extract) then Some(Completed(d, requestId, fetch, extract))
    else if InputContent(d).None? then None
    else NewDocument(requestId, Some(""), map[], "error", PersistedUrl(d))
  }

  /** Every task the endpoint schedules ends with a record under the id the
      client was given. */
  lemma AcceptedRequestRecorded<R>(d: StyleGuideInput, lookup: string -> Option<string>, freshId: string,
                                   fetch: string -> Option<string>, extract: Extractor<R>)
    requires Extract(d, lookup, freshId).response.Accepted?
    ensures var t := Extract(d, lookup, freshId).tasks[0];
      && ProcessAndSave(t.data, t.requestId, fetch, extract).Some?
      && ProcessAndSave(t.data, t.requestId, fetch, extract).value.requestId == freshId
  {
  }
}
