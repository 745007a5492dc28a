/** The HTTP handler of the source library (`GET`/`POST`/`DELETE` on the sources route): a
    validation and status-code layer over the source store. Every exception a handler meets
    (an unparsable request body, a failed write of the index) becomes a 500 response. */
module SourcesRoute {
  import opened Types
  import opened Sources

  datatype Body = SourceList(items: seq<Source>) | SourceBody(source: Source)
                | SuccessBody | ErrorBody(message: string)

  datatype Response = Response(status: int, body: Body)

  /** The body of a POST: either `req.json()` throws with a message, or it yields a source.
      A field missing from the JSON is the empty string here (both are falsy). */
  datatype PostRequest = PostUnparsable(parseError: string) | PostJson(source: Source)

  /** The body of a DELETE: `req.json()` throws, or it yields an object whose `id` may be
      missing. */
  datatype DeleteRequest = DeleteUnparsable(parseError: string) | DeleteJson(id: Option<string>)

  /** The response to a GET: reading the index never fails, since an unreadable index reads
      as empty. */
  function GetOutcome(sources: seq<Source>): (r: Response)
    ensures r.status == 200 && r.body == SourceList(sources)
  {
    Response(200, SourceList(sources))
  }

  /** The response to a POST and the index afterwards. */
  function PostOutcome(sources: seq<Source>, req: PostRequest, now: string, writeOk: bool)
    : (r: (Response, seq<Source>))
    ensures r.0.status in {200, 400, 500}
    ensures r.0.status != 200 ==> r.1 == sources && r.0.body.ErrorBody?
    ensures r.0.status == 200 ==> req.PostJson? && r.1 == Upsert(sources, req.source, now)
                                  && r.0.body == SourceBody(req.source)
  {
    match req
    case PostUnparsable(e) => (Response(500, ErrorBody(e)), sources)
    case PostJson(source) =>
      if source.id == "" || source.title == "" then
        (Response(400, ErrorBody("ID and title are required")), sources)
      else if writeOk then (Response(200, SourceBody(source)), Upsert(sources, source, now))
      else (Response(500, ErrorBody(WriteError)), sources)
  }

  /** The response to a DELETE and the index afterwards. */
  function DeleteOutcome(sources: seq<Source>, req: DeleteRequest, writeOk: bool)
    : (r: (Response, seq<Source>))
    ensures r.0.status in {200, 400, 404, 500}
    ensures r.0.status != 200 ==> r.1 == sources && r.0.body.ErrorBody?
    ensures r.0.status == 200 ==> req.DeleteJson? && req.id.Some?
                                  && r.1 == RemoveId(sources, req.id.value) && |r.1| < |sources|
  {
    match req
    case DeleteUnparsable(e) => (Response(500, ErrorBody(e)), sources)
    case DeleteJson(id) =>
      if id.None? || id.value == "" then (Response(400, ErrorBody("ID is required")), sources)
      else
        var filtered := RemoveId(sources, id.value);
        if |filtered| == |sources| then (Response(404, ErrorBody("Source not found")), sources)
        else if writeOk then (Response(200, SuccessBody), filtered)
        else (Response(500, ErrorBody(WriteError)), sources)
  }

  /** A POST without an id or a title is refused with 400 and leaves the index alone; and
      400 is given for nothing else. */
  lemma PostValidation(sources: seq<Source>, req: PostRequest, now: string, writeOk: bool)
    ensures var (resp, after) := PostOutcome(sources, req, now, writeOk);
      (resp.status == 400 <==> req.PostJson? && (req.source.id == "" || req.source.title == ""))
      && (resp.status == 400 ==> after == sources)
  {
  }

  /** A POST with both fields upserts and answers with the source exactly as sent. */
  lemma PostSavesAndEchoes(sources: seq<Source>, source: Source, now: string)
    requires source.id != "" && source.title != ""
    ensures PostOutcome(sources, PostJson(source), now, true)
            == (Response(200, SourceBody(source)), Upsert(sources, source, now))
  {
  }

  /** A failing handler answers 500 instead of throwing, and then the index is unchanged. */
  lemma FailuresBecome500(sources: seq<Source>, post: PostRequest, del: DeleteRequest, now: string)
    ensures post.PostUnparsable? ==> PostOutcome(sources, post, now, true) == (Response(500, ErrorBody(post.parseError)), sources)
    ensures del.DeleteUnparsable? ==> DeleteOutcome(sources, del, true) == (Response(500, ErrorBody(del.parseError)), sources)
    ensures PostOutcome(sources, post, now, false).1 == sources
    ensures DeleteOutcome(sources, del, false).1 == sources
    ensures post.PostJson? && post.source.id != "" && post.source.title != ""
            ==> PostOutcome(sources, post, now, false).0.status == 500
  {
  }

  /** DELETE: 400 without an id, 404 for an unknown id (index untouched), success with every
      record of that id removed for a known one. */
  lemma DeleteDecisions(sources: seq<Source>, id: string)
    ensures id == "" ==> DeleteOutcome(sources, DeleteJson(Some(id)), true) == (Response(400, ErrorBody("ID is required")), sources)
    ensures DeleteOutcome(sources, DeleteJson(None), true) == (Response(400, ErrorBody("ID is required")), sources)
    ensures id != "" && (forall k :: 0 <= k < |sources| ==> sources[k].id != id)
            ==> DeleteOutcome(sources, DeleteJson(Some(id)), true) == (Response(404, ErrorBody("Source not found")), sources)
    ensures id != "" && (exists k :: 0 <= k < |sources| && sources[k].id == id)
            ==> var (resp, after) := DeleteOutcome(sources, DeleteJson(Some(id)), true);
                resp == Response(200, SuccessBody)
                && after == RemoveId(sources, id)
                && forall k :: 0 <= k < |after| ==> after[k].id != id
  {
    RemoveIdShrinksIffPresent(sources, id);
  }

  method Get(store: SourceStore) returns (resp: Response)
    ensures resp == GetOutcome(store.sources)
  {
    var sources := store.GetAllSources();
    resp := Response(200, SourceList(sources));
  }

  method Post(store: SourceStore, req: PostRequest, now: string, writeOk: bool) returns (resp: Response)
    modifies store
    ensures (resp, store.sources) == PostOutcome(old(store.sources), req, now, writeOk)
  {
    match req
    case PostUnparsable(e) =>
      resp := Response(500, ErrorBody(e));
    case PostJson(source) =>
      if source.id == "" || source.title == "" {
        resp := Response(400, ErrorBody("ID and title are required"));
        return;
      }
      var saved := store.SaveSource(source, now, writeOk);
      match saved
      case Done(s) => resp := Response(200, SourceBody(s));
      case WriteFailed(e) => resp := Response(500, ErrorBody(e));
  }

  method Delete(store: SourceStore, req: DeleteRequest, writeOk: bool) returns (resp: Response)
    modifies store
    ensures (resp, store.sources) == DeleteOutcome(old(store.sources), req, writeOk)
  {
    match req
    case DeleteUnparsable(e) =>
      resp := Response(500, ErrorBody(e));
    case DeleteJson(id) =>
      if id.None? || id.value == "" {
        resp := Response(400, ErrorBody("ID is required"));
        return;
      }
      var deleted := store.DeleteSource(id.value, writeOk);
      match deleted
      case Done(removed) =>
        if !removed {
          resp := Response(404, ErrorBody("Source not found"));
        } else {
          resp := Response(200, SuccessBody);
        }
      case WriteFailed(e) => resp := Response(500, ErrorBody(e));
  }
}
