/**
 The server over its lifetime: the bucket list starts as the seed and every
 request in turn is a step against the list the previous one left.
 */
module ServerRun {
  import opened JsString
  import opened RequestBody
  import opened BucketList

  /** The item a request would append to any list: the trimmed `item` of a
      POST /add that passes the guard. */
  function Offer(req: Request): Option<string> {
    if req.Post? && req.url == "/add" && AddAccepts(Property(SafeData(req.body), "item"))
    then Some(Trim(Property(SafeData(req.body), "item").value.s))
    else None
  }

  /** Every element of `list` is one of `origins`. */
  predicate Within(list: seq<string>, origins: set<string>) {
    forall k :: 0 <= k < |list| ==> list[k] in origins
  }

  /** What `req` offered, as a set. */
  function OfferSet(req: Request): set<string> {
    if Offer(req).Some? then {Offer(req).value} else {}
  }

  /** One step grows the list by at most the step's own offer. */
  lemma StepGrowsByOffer(list: seq<string>, req: Request)
    ensures |Step(list, req).list| <= |list| + |OfferSet(req)|
  {
  }

  /** One step keeps the list within its origins, once the step's own
      offer is counted among them. */
  lemma StepStaysWithin(list: seq<string>, req: Request, origins: set<string>)
    requires Within(list, origins)
    ensures Within(Step(list, req).list, origins + OfferSet(req))
  {
    match req
    case Get(_) =>
    case OtherMethod =>
    case Post(url, p) =>
      var r := Step(list, req).list;
      if url == "/add" {
        var item := Property(SafeData(p), "item");
        if AddAccepts(item) {
          assert r == list + [Trim(item.value.s)];
          assert OfferSet(req) == {Trim(item.value.s)};
        }
      } else if url == "/delete" {
        var index := Property(SafeData(p), "index");
        if DeleteAccepts(index, |list|) {
          var i := index.value.x.Floor;
          forall k | 0 <= k < |r| ensures r[k] in origins {
            if k < i { assert r[k] == r[..i][k] == list[k]; }
            else { assert r[k] == r[i..][k - i] == list[k + 1]; }
          }
        }
      }
  }

  /** The items the server can ever hold after `reqs`: the seed and the offers. */
  function Origins(reqs: seq<Request>): (origins: set<string>)
    ensures forall o :: o in origins ==> IsTrimmed(o)
  {
    if reqs == [] then set k | 0 <= k < |Seed| :: Seed[k]
    else Origins(reqs[..|reqs| - 1]) + OfferSet(reqs[|reqs| - 1])
  }

  /** How many requests in `reqs` offered an item. */
  function Adds(reqs: seq<Request>): nat {
    if reqs == [] then 0 else Adds(reqs[..|reqs| - 1]) + |OfferSet(reqs[|reqs| - 1])|
  }

  /** The list after serving `reqs` from a fresh start. */
  function Run(reqs: seq<Request>): seq<string> {
    if reqs == [] then Seed else Step(Run(reqs[..|reqs| - 1]), reqs[|reqs| - 1]).list
  }

  /** The list grows by at most one item per accepted POST /add. */
  lemma {:induction false} RunLengthBound(reqs: seq<Request>)
    ensures |Run(reqs)| <= |Seed| + Adds(reqs)
  {
    if reqs != [] {
      var before := reqs[..|reqs| - 1];
      RunLengthBound(before);
      StepGrowsByOffer(Run(before), reqs[|reqs| - 1]);
    }
  }

  /** The list only ever holds seed items and items some POST /add offered. */
  lemma {:induction false} RunStaysWithin(reqs: seq<Request>)
    ensures forall k :: 0 <= k < |Run(reqs)| ==> Run(reqs)[k] in Origins(reqs)
  {
    if reqs == [] {
      assert Within(Seed, Origins([]));
    } else {
      var before := reqs[..|reqs| - 1];
      RunStaysWithin(before);
      StepStaysWithin(Run(before), reqs[|reqs| - 1], Origins(before));
    }
  }

  /** Every item the list ever holds is trimmed. */
  lemma RunItemsTrimmed(reqs: seq<Request>)
    ensures forall k :: 0 <= k < |Run(reqs)| ==> IsTrimmed(Run(reqs)[k])
  {
    RunStaysWithin(reqs);
  }

  /** `replies` are the replies each request in `reqs` gets from its step. */
  ghost predicate Answers(reqs: seq<Request>, replies: seq<Reply>) {
    |replies| == |reqs|
    && forall k :: 0 <= k < |reqs| ==> replies[k] == Step(Run(reqs[..k]), reqs[k]).reply
  }

  /** What the step-by-step replies say to the client: a POST sees the list
      its own step left, GET /data the list the requests before it left. */
  lemma AnswersShowList(reqs: seq<Request>, replies: seq<Reply>)
    requires Answers(reqs, replies)
    ensures forall k :: 0 <= k < |reqs| && reqs[k].Post? ==> replies[k] == ListJson(Run(reqs[..k + 1]))
    ensures forall k :: 0 <= k < |reqs| && reqs[k] == Get("/data") ==> replies[k] == ListJson(Run(reqs[..k]))
    ensures forall k :: 0 <= k < |reqs| && reqs[k].Get? && reqs[k].url != "/data" ==> replies[k] == StaticFile
    ensures forall k :: 0 <= k < |reqs| && reqs[k].OtherMethod? ==> replies[k] == NoReply
  {
    forall k | 0 <= k < |reqs| ensures Run(reqs[..k + 1]) == Step(Run(reqs[..k]), reqs[k]).list {
      assert reqs[..k + 1][..k] == reqs[..k];
    }
  }

  /** Answering one more request extends the answers by its step's reply. */
  lemma AnswersExtend(reqs: seq<Request>, i: nat, replies: seq<Reply>)
    requires i < |reqs| && Answers(reqs[..i], replies)
    ensures Answers(reqs[..i + 1], replies + [Step(Run(reqs[..i]), reqs[i]).reply])
  {
    var next := replies + [Step(Run(reqs[..i]), reqs[i]).reply];
    forall k | 0 <= k <= i ensures next[k] == Step(Run(reqs[..i + 1][..k]), reqs[..i + 1][k]).reply {
      if k < i {
        assert reqs[..i + 1][..k] == reqs[..i][..k];
        assert next[k] == replies[k];
      } else {
        assert reqs[..i + 1][..k] == reqs[..i];
      }
    }
  }

  /** The server loop: the process-wide list starts as the seed and is
      threaded through the requests in order; each request gets the reply
      its step gives, and every item left in the list is trimmed. */
  method Serve(reqs: seq<Request>) returns (list: seq<string>, replies: seq<Reply>)
    ensures list == Run(reqs)
    ensures Answers(reqs, replies)
    ensures forall k :: 0 <= k < |list| ==> IsTrimmed(list[k])
  {
    list := Seed;
    replies := [];
    for i := 0 to |reqs|
      invariant list == Run(reqs[..i])
      invariant Answers(reqs[..i], replies)
    {
      var response := Step(list, reqs[i]);
      AnswersExtend(reqs, i, replies);
      assert reqs[..i + 1][..i] == reqs[..i];
      list := response.list;
      replies := replies + [response.reply];
    }
    assert reqs[..|reqs|] == reqs;
    RunItemsTrimmed(reqs);
  }
}
