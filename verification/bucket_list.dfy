/**
 The server's bucket list: a process-wide list of strings, seeded with three
 items, that POST /add and POST /delete change and GET /data reads. Each
 request is one step of a state machine whose state is the list.
 */
module BucketList {
  import opened JsString
  import opened RequestBody

  /** The list when the server starts. */
  const Seed: seq<string> := ["Go stargazing", "Take a cooking class", "Weekend road trip"]

  /** The `/add` guard `data.item && typeof data.item === "string"`: a string
      is truthy exactly when it is not empty. */
  predicate AddAccepts(item: Option<Value>) {
    item.Some? && item.value.Str? && |item.value.s| > 0
  }

  /** The `/delete` guard `typeof index === "number" && index >= 0 && index < length`. */
  predicate DeleteAccepts(index: Option<Value>, length: nat) {
    index.Some? && index.value.Num? && 0.0 <= index.value.x < length as real
  }

  /** `list.splice(x, 1)` for an `x` in `[0, |list|)`: the fraction of `x` is
      cut off, the element there is removed and later ones move down by one. */
  function RemoveAt(list: seq<string>, x: real): (r: seq<string>)
    requires 0.0 <= x < |list| as real
    ensures |r| == |list| - 1
    ensures forall k :: 0 <= k < x.Floor ==> r[k] == list[k]
    ensures forall k :: x.Floor <= k < |r| ==> r[k] == list[k + 1]
    ensures multiset(r) + multiset{list[x.Floor]} == multiset(list)
  {
    var i := x.Floor;
    assert list == list[..i] + [list[i]] + list[i + 1..];
    list[..i] + list[i + 1..]
  }

  /** The `/add` branch: append the trimmed item when the guard holds.
      The guard looks at the item before trimming, so an item of white
      space only appends the empty string. */
  function AddItem(list: seq<string>, item: Option<Value>): (r: seq<string>)
    ensures AddAccepts(item) ==>
      |r| == |list| + 1 && r[..|list|] == list && r[|list|] == Trim(item.value.s)
    ensures !AddAccepts(item) ==> r == list
  {
    if AddAccepts(item) then list + [Trim(item.value.s)] else list
  }

  /** The `/delete` branch: remove one element when the guard holds. */
  function DeleteItem(list: seq<string>, index: Option<Value>): (r: seq<string>)
    ensures DeleteAccepts(index, |list|) ==> |r| == |list| - 1
    ensures DeleteAccepts(index, |list|) ==>
      var i := index.value.x.Floor;
      r[..i] == list[..i] && r[i..] == list[i + 1..]
    ensures !DeleteAccepts(index, |list|) ==> r == list
    ensures multiset(r) <= multiset(list)
  {
    if DeleteAccepts(index, |list|) then RemoveAt(list, index.value.x) else list
  }

  /** What the server sends back. */
  datatype Reply =
    | ListJson(bucketList: seq<string>)  // 200, `{ bucketList }` as JSON
    | StaticFile                         // a file from `public/`, or a 404
    | NoReply                            // a method other than GET and POST

  /** The list after a request, and the reply to it. */
  datatype Response = Response(list: seq<string>, reply: Reply)

  /** A request either gets a response or throws out of its handler,
      which ends the server process. */
  datatype Outcome = Answered(response: Response) | Crashed

  /** Every POST ends by sending the list as it then stands. */
  function PostReply(list: seq<string>): Response {
    Response(list, ListJson(list))
  }

  /** handlePost as written: reading `data.item` or `data.index` throws a
      TypeError when the body is the JSON literal `null`, and nothing catches it. */
  function HandlePostAsWritten(list: seq<string>, url: string, p: Parsed): (o: Outcome)
    ensures o.Crashed? <==> (url == "/add" || url == "/delete") && p == Json(Null)
    ensures o.Answered? ==> o.response == HandlePost(list, url, p)
  {
    var data := DataOf(p);
    if url == "/add" then
      if data.Null? then Crashed else Answered(PostReply(AddItem(list, Property(data, "item"))))
    else if url == "/delete" then
      if data.Null? then Crashed else Answered(PostReply(DeleteItem(list, Property(data, "index"))))
    else
      Answered(PostReply(list))
  }

  /** `data` with a `null` body read like the `{}` a parse failure leaves. */
  function SafeData(p: Parsed): (data: Body)
    ensures !data.Null?
    ensures !DataOf(p).Null? ==> data == DataOf(p)
  {
    if DataOf(p).Null? then Object(map[]) else DataOf(p)
  }

  /** handlePost, with a `null` body treated like any other body that has
      neither property: the list changes only on an accepted `/add` or
      `/delete`, and the reply is always the list after the change. */
  function HandlePost(list: seq<string>, url: string, p: Parsed): (r: Response)
    ensures r.reply == ListJson(r.list)
    ensures url == "/add" ==> r.list == AddItem(list, Property(SafeData(p), "item"))
    ensures url == "/delete" ==> r.list == DeleteItem(list, Property(SafeData(p), "index"))
    ensures url != "/add" && url != "/delete" ==> r.list == list
  {
    var data := SafeData(p);
    if url == "/add" then
      PostReply(AddItem(list, Property(data, "item")))
    else if url == "/delete" then
      PostReply(DeleteItem(list, Property(data, "index")))
    else
      PostReply(list)
  }

  /** handleGet: `/data` answers with the list; every other URL is a static
      file. Neither changes the list. */
  function HandleGet(list: seq<string>, url: string): (r: Response)
    ensures r.list == list
    ensures r.reply.ListJson? <==> url == "/data"
    ensures r.reply.ListJson? ==> r.reply.bucketList == list
  {
    if url == "/data" then Response(list, ListJson(list)) else Response(list, StaticFile)
  }

  /** An HTTP request, its body already parsed. */
  datatype Request = Get(url: string) | Post(url: string, body: Parsed) | OtherMethod

  /** One request against the list. A POST goes to the corrected handler,
      so every POST is answered. */
  function Step(list: seq<string>, req: Request): (r: Response)
    ensures req.Post? ==> r == HandlePost(list, req.url, req.body)
    ensures req.Get? ==> r == HandleGet(list, req.url)
    ensures !req.Post? ==> r.list == list
    ensures req.Post? ==> r.reply == ListJson(r.list)
    ensures req.Get? ==> (r.reply == ListJson(list) <==> req.url == "/data")
    ensures req.OtherMethod? ==> r.reply == NoReply
  {
    match req
    case Get(url) => HandleGet(list, url)
    case Post(url, p) => HandlePost(list, url, p)
    case OtherMethod => Response(list, NoReply)
  }
}
