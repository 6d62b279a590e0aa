/**
 Properties of single requests against the bucket list, stated for the
 bodies a client sends: `{ "item": s }` to /add and `{ "index": x }` to /delete.
 */
module BucketListProperties {
  import opened JsString
  import opened RequestBody
  import opened BucketList

  /** The body `{ "item": s }`. */
  function ItemBody(s: string): Parsed {
    Json(Object(map["item" := Str(s)]))
  }

  /** The body `{ "index": x }`. */
  function IndexBody(x: real): Parsed {
    Json(Object(map["index" := Num(x)]))
  }

  /** A non-empty item is trimmed and appended; the list before it is kept. */
  lemma AddAppendsTrimmed(list: seq<string>, s: string)
    requires |s| > 0
    ensures Step(list, Post("/add", ItemBody(s))) == PostReply(list + [Trim(s)])
  {
  }

  /** The guard is checked before trimming: an item of white space only
      passes it and appends the empty string. */
  lemma WhitespaceItemAppendsEmpty(list: seq<string>, s: string)
    requires |s| > 0 && AllWs(s)
    ensures Step(list, Post("/add", ItemBody(s))).list == list + [""]
  {
  }

  /** An empty item, or an item that is not a string, changes nothing. */
  lemma RejectedItemChangesNothing(list: seq<string>, v: Value)
    requires v == Str("") || !v.Str?
    ensures Step(list, Post("/add", Json(Object(map["item" := v])))) == PostReply(list)
  {
  }

  /** Deleting at `x` in `[0, |list|)` drops the element at the integer part
      of `x`: earlier ones keep their places, later ones move down by one. */
  lemma DeleteRemovesOne(list: seq<string>, x: real)
    requires 0.0 <= x < |list| as real
    ensures Step(list, Post("/delete", IndexBody(x))).list == list[..x.Floor] + list[x.Floor + 1..]
  {
  }

  /** An index outside `[0, |list|)` changes nothing. */
  lemma DeleteOutOfRangeChangesNothing(list: seq<string>, x: real)
    requires x < 0.0 || |list| as real <= x
    ensures Step(list, Post("/delete", IndexBody(x))) == PostReply(list)
  {
  }

  /** An index that is not a number changes nothing, even a string of digits. */
  lemma DeleteNonNumberChangesNothing(list: seq<string>, v: Value)
    requires !v.Num?
    ensures Step(list, Post("/delete", Json(Object(map["index" := v])))) == PostReply(list)
  {
  }

  /** A body that does not parse is read as `{}`, so no POST changes the list. */
  lemma MalformedBodyChangesNothing(list: seq<string>, url: string)
    ensures Step(list, Post(url, Malformed)) == PostReply(list)
  {
  }

  /** Deleting the item that an accepted /add just appended gives back the
      list from before the /add. */
  lemma AddThenDeleteLastRestores(list: seq<string>, p: Parsed)
    requires AddAccepts(Property(SafeData(p), "item"))
    ensures Step(Step(list, Post("/add", p)).list, Post("/delete", IndexBody(|list| as real))).list == list
  {
    var added := Step(list, Post("/add", p)).list;
    assert added[..|list|] == list;
  }

  /** As written, the JSON literal `null` as the body of /add or /delete
      throws out of the handler instead of answering. */
  lemma NullBodyCrashesAsWritten(list: seq<string>)
    ensures HandlePostAsWritten(list, "/add", Json(Null)) == Crashed
    ensures HandlePostAsWritten(list, "/delete", Json(Null)) == Crashed
  {
  }

  /** With `null` read like `{}`, such a body is answered and changes nothing. */
  lemma NullBodyChangesNothing(list: seq<string>, url: string)
    ensures Step(list, Post(url, Json(Null))) == PostReply(list)
  {
  }
}
