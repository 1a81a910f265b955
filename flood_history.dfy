/**
 * Many requests served one after the other by the same process, all sharing
 * the one explanation cache.
 */
module FloodHistory {
  import opened Wrappers
  import opened Text
  import Decimal
  import opened FloodApp

  /** A request together with what the generator would do if called for it. */
  datatype Exchange = Exchange(request: Request, reply: Completion)

  /** What a series of requests leaves: one response per request, the final
      cache, and every generator call in order. */
  datatype Trace<D(==)> = Trace(responses: seq<Response>, cache: map<Key<D>, string>, calls: seq<Call<D>>)

  /** Serve `xs` in order, starting from `cache`. Each request makes at most
      one generator call. */
  function Run<D(==)>(cache: map<Key<D>, string>, xs: seq<Exchange>, parse: string -> Option<D>): (t: Trace<D>)
    ensures |t.responses| == |xs|
    ensures |t.calls| <= |xs|
    decreases |xs|
  {
    if xs == [] then
      Trace([], cache, [])
    else
      var s := Serve(cache, xs[0].request, parse, xs[0].reply);
      var rest := Run(s.cache, xs[1..], parse);
      Trace([s.response] + rest.responses, rest.cache, CallsOf(s) + rest.calls)
  }

  /** A call made on a miss, followed by a history made only on misses. */
  lemma OnlyOnMissCons<D>(cache: map<Key<D>, string>, c: Call<D>, calls: seq<Call<D>>)
    requires c.key !in cache && OnlyOnMiss(Apply(cache, c), calls)
    ensures OnlyOnMiss(cache, [c] + calls)
  {
    var all := [c] + calls;
    forall i | 0 <= i < |all| ensures all[i].key !in ReplayOnto(cache, all[..i]) {
      if i == 0 {
        assert all[..0] == [];
      } else {
        assert all[..i][0] == c && all[..i][1..] == calls[..i - 1];
        assert all[i] == calls[i - 1];
      }
    }
  }

  /** Over any series of requests, the final cache is exactly what the
      generator calls produced, and every call was made on a miss. */
  lemma {:induction false} RunIsReplay<D>(cache: map<Key<D>, string>, xs: seq<Exchange>, parse: string -> Option<D>)
    ensures Run(cache, xs, parse).cache == ReplayOnto(cache, Run(cache, xs, parse).calls)
    ensures OnlyOnMiss(cache, Run(cache, xs, parse).calls)
    decreases |xs|
  {
    if xs != [] {
      var s := Serve(cache, xs[0].request, parse, xs[0].reply);
      var rest := Run(s.cache, xs[1..], parse);
      ServeCallsOnMiss(cache, xs[0].request, parse, xs[0].reply);
      RunIsReplay(s.cache, xs[1..], parse);
      if s.call.Some? {
        var c := s.call.value;
        var all := [c] + rest.calls;
        assert all[0] == c && all[1..] == rest.calls;
        OnlyOnMissCons(cache, c, rest.calls);
      } else {
        assert CallsOf(s) + rest.calls == rest.calls;
      }
    }
  }

  /** An entry, once in the cache, keeps its value through every later request. */
  lemma RunKeepsEntries<D>(cache: map<Key<D>, string>, xs: seq<Exchange>, parse: string -> Option<D>, k: Key<D>)
    requires k in cache
    ensures k in Run(cache, xs, parse).cache && Run(cache, xs, parse).cache[k] == cache[k]
  {
    RunIsReplay(cache, xs, parse);
    ReplayNeverOverwrites(cache, Run(cache, xs, parse).calls, k);
  }

  /** Whatever the requests, a cache that holds only texts without
      surrounding whitespace keeps holding only such texts. */
  lemma {:induction false} RunStoresStrippedText<D>(cache: map<Key<D>, string>, xs: seq<Exchange>, parse: string -> Option<D>)
    requires AllStripped(cache)
    ensures AllStripped(Run(cache, xs, parse).cache)
    decreases |xs|
  {
    if xs != [] {
      var s := Serve(cache, xs[0].request, parse, xs[0].reply);
      ServeStoresStrippedText(cache, xs[0].request, parse, xs[0].reply);
      RunStoresStrippedText(s.cache, xs[1..], parse);
    }
  }

  /** The generator is never asked about a key the cache held when the
      series started. */
  lemma RunAsksOnlyNewKeys<D>(cache: map<Key<D>, string>, xs: seq<Exchange>, parse: string -> Option<D>, i: nat)
    requires i < |Run(cache, xs, parse).calls|
    ensures Run(cache, xs, parse).calls[i].key !in cache
  {
    var calls := Run(cache, xs, parse).calls;
    RunIsReplay(cache, xs, parse);
    ReplayKeepsKeys(cache, calls[..i]);
  }

  /** The generator is never asked about a key the cache already held, and
      once it has produced the text for a key it is never asked about that
      key again. */
  lemma RunComputesOncePerKey<D>(cache: map<Key<D>, string>, xs: seq<Exchange>, parse: string -> Option<D>, i: nat, j: nat)
    requires i < j < |Run(cache, xs, parse).calls|
    requires Run(cache, xs, parse).calls[i].produced.Some?
    ensures Run(cache, xs, parse).calls[i].key !in cache
    ensures Run(cache, xs, parse).calls[j].key != Run(cache, xs, parse).calls[i].key
  {
    var calls := Run(cache, xs, parse).calls;
    RunIsReplay(cache, xs, parse);
    RunAsksOnlyNewKeys(cache, xs, parse, i);
    ComputedAtMostOnce(cache, calls, i, j);
  }

  /** A request whose key is cached is answered with the cached text, however
      many requests came before it. */
  lemma {:induction false} RunHit<D>(cache: map<Key<D>, string>, xs: seq<Exchange>, parse: string -> Option<D>, j: nat, k: Key<D>)
    requires j < |xs| && k in cache && ReadForm(xs[j].request, parse) == Accepted(k)
    ensures Run(cache, xs, parse).responses[j] == Page(Some(cache[k]), None)
    decreases j
  {
    var s := Serve(cache, xs[0].request, parse, xs[0].reply);
    if j > 0 {
      assert xs[1..][j - 1] == xs[j];
      ServeKeepsEntries(cache, xs[0].request, parse, xs[0].reply, k);
      RunHit(s.cache, xs[1..], parse, j - 1, k);
    } else {
      ServeHit(cache, xs[0].request, parse, xs[0].reply, k);
    }
  }

  /** The responses of a series are those of its first `n` requests, then
      those of the rest served from the cache they left. */
  lemma {:induction false} RunSplit<D>(cache: map<Key<D>, string>, xs: seq<Exchange>, parse: string -> Option<D>, n: nat)
    requires n <= |xs|
    ensures var t := Run(cache, xs[..n], parse);
            Run(cache, xs, parse).responses == t.responses + Run(t.cache, xs[n..], parse).responses
    decreases n
  {
    if n == 0 {
      assert xs[..0] == [] && xs[0..] == xs;
    } else {
      var s := Serve(cache, xs[0].request, parse, xs[0].reply);
      assert xs[..n][0] == xs[0];
      assert xs[..n][1..] == xs[1..][..n - 1];
      assert xs[1..][n - 1..] == xs[n..];
      RunSplit(s.cache, xs[1..], parse, n - 1);
    }
  }

  /** Response `n > 0` of a series is response `n - 1` of the rest of the
      series, served against the cache the first request left. */
  lemma RunStep<D>(cache: map<Key<D>, string>, xs: seq<Exchange>, parse: string -> Option<D>, n: nat)
    requires 0 < n < |xs|
    ensures Run(cache, xs, parse).responses[n]
         == Run(Serve(cache, xs[0].request, parse, xs[0].reply).cache, xs[1..], parse).responses[n - 1]
  {
  }

  /** Responses `i` and `j` past the first are responses `i - 1` and `j - 1`
      of the rest of the series, served against the cache `after` the first
      request left; so when the rest repeats an explanation from `i - 1` at
      `j - 1`, the whole series repeats it from `i` at `j`. */
  lemma RunShift<D>(cache: map<Key<D>, string>, xs: seq<Exchange>, parse: string -> Option<D>, i: nat, j: nat,
                    after: map<Key<D>, string>)
    requires 0 < i < j < |xs|
    requires after == Serve(cache, xs[0].request, parse, xs[0].reply).cache
    requires var r' := Run(after, xs[1..], parse).responses;
             r'[i - 1].Page? && r'[i - 1].explanation.Some? ==> r'[j - 1] == r'[i - 1]
    ensures var r := Run(cache, xs, parse).responses;
            r[i].Page? && r[i].explanation.Some? ==> r[j] == r[i]
  {
    RunStep(cache, xs, parse, i);
    RunStep(cache, xs, parse, j);
  }

  /** The base case of RunRepeatsExplanation: the explanation answers the
      first request of the series. */
  lemma FirstAnswerRepeats<D>(cache: map<Key<D>, string>, xs: seq<Exchange>, parse: string -> Option<D>, j: nat, k: Key<D>)
    requires 0 < j < |xs|
    requires ReadForm(xs[0].request, parse) == Accepted(k) && ReadForm(xs[j].request, parse) == Accepted(k)
    ensures var r := Run(cache, xs, parse).responses;
            r[0].Page? && r[0].explanation.Some? ==> r[j] == r[0]
  {
    var s := Serve(cache, xs[0].request, parse, xs[0].reply);
    assert xs[1..][j - 1] == xs[j];
    RunStep(cache, xs, parse, j);
    ServeResponds(cache, xs[0].request, parse, xs[0].reply);
    if s.response.Page? && s.response.explanation.Some? {
      RunHit(s.cache, xs[1..], parse, j - 1, k);
    }
  }

  /** Requests `a > 0` and `b` of a series are requests `a - 1` and `b - 1`
      of its tail. */
  lemma TailRequests(ys: seq<Exchange>, a: nat, b: nat, first: Request, again: Request)
    requires 0 < a < b < |ys| && ys[a].request == first && ys[b].request == again
    ensures |ys[1..]| == |ys| - 1 && ys[1..][a - 1].request == first && ys[1..][b - 1].request == again
  {
  }

  /** RunRepeatsExplanation for requests `first` and `again` at positions `a`
      and `b` of `ys`, by induction on `a`, with RepeatsFromLater for `a > 0`. */
  lemma {:induction false} RepeatsFrom<D>(c: map<Key<D>, string>, ys: seq<Exchange>, parse: string -> Option<D>,
                                          a: nat, b: nat, k: Key<D>, first: Request, again: Request)
    requires a < b < |ys| && ys[a].request == first && ys[b].request == again
    requires ReadForm(first, parse) == Accepted(k) && ReadForm(again, parse) == Accepted(k)
    ensures var r := Run(c, ys, parse).responses;
            r[a].Page? && r[a].explanation.Some? ==> r[b] == r[a]
    decreases a, 1
  {
    if a == 0 {
      FirstAnswerRepeats(c, ys, parse, b, k);
    } else {
      RepeatsFromLater(c, ys, parse, a, b, k, first, again);
    }
  }

  /** The step of RepeatsFrom: the first request of `ys` is served, and the
      rest of the series repeats the explanation one position earlier. */
  lemma {:induction false} RepeatsFromLater<D>(c: map<Key<D>, string>, ys: seq<Exchange>, parse: string -> Option<D>,
                                               a: nat, b: nat, k: Key<D>, first: Request, again: Request)
    requires 0 < a < b < |ys| && ys[a].request == first && ys[b].request == again
    requires ReadForm(first, parse) == Accepted(k) && ReadForm(again, parse) == Accepted(k)
    ensures var r := Run(c, ys, parse).responses;
            r[a].Page? && r[a].explanation.Some? ==> r[b] == r[a]
    decreases a, 0
  {
    TailRequests(ys, a, b, first, again);
    var after := Serve(c, ys[0].request, parse, ys[0].reply).cache;
    RepeatsFrom(after, ys[1..], parse, a - 1, b - 1, k, first, again);
    RunShift(c, ys, parse, a, b, after);
  }

  /** Repeating a valid request gives back the same explanation: once request
      `i` has been answered with an explanation, every later request with the
      same key gets the same page. */
  lemma RunRepeatsExplanation<D>(cache: map<Key<D>, string>, xs: seq<Exchange>, parse: string -> Option<D>,
                                 i: nat, j: nat, k: Key<D>)
    requires i < j < |xs|
    requires ReadForm(xs[i].request, parse) == Accepted(k) && ReadForm(xs[j].request, parse) == Accepted(k)
    ensures var r := Run(cache, xs, parse).responses;
            r[i].Page? && r[i].explanation.Some? ==> r[j] == r[i]
  {
    RepeatsFrom(cache, xs, parse, i, j, k, xs[i].request, xs[j].request);
  }

  /** Two submissions whose stripped ZIP codes agree and whose stripped depths
      parse to the same value share one cache entry: after the first is
      answered with an explanation, the second gets the same page without a
      generator call. */
  lemma EquivalentRequestsShareEntry<D>(cache: map<Key<D>, string>, first: Request, again: Request,
                                        parse: string -> Option<D>, reply1: Completion, reply2: Completion)
    requires first.httpMethod == "POST" && again.httpMethod == "POST"
    requires Strip(FormValue(first, ZipField)) == Strip(FormValue(again, ZipField))
    requires Strip(FormValue(first, DepthField)) != [] && Strip(FormValue(again, DepthField)) != []
    requires parse(Strip(FormValue(first, DepthField))) == parse(Strip(FormValue(again, DepthField)))
    ensures var s1 := Serve(cache, first, parse, reply1);
            s1.response.Page? && s1.response.explanation.Some? ==>
              Serve(s1.cache, again, parse, reply2) == Step(s1.response, s1.cache, None)
  {
    assert ReadForm(first, parse) == ReadForm(again, parse);
    var s1 := Serve(cache, first, parse, reply1);
    ServeResponds(cache, first, parse, reply1);
    if s1.response.Page? && s1.response.explanation.Some? {
      ServeHit(s1.cache, again, parse, reply2, ReadForm(first, parse).key);
    }
  }

  /** A whole-number depth written plainly, and the same ZIP code and depth
      resubmitted with blanks around the ZIP code and ".0" after the depth
      (say "10001" at "2", then " 10001 " at "2.0"): one cache entry, and no
      generator call for the second. */
  lemma PaddedRespelledRequestHits(cache: map<Key<real>, string>, first: Request, again: Request,
                                   zip: string, before: string, after: string, whole: string,
                                   reply1: Completion, reply2: Completion)
    requires first.httpMethod == "POST" && again.httpMethod == "POST"
    requires zip != [] && IsStripped(zip) && AllSpace(before) && AllSpace(after)
    requires whole != [] && Decimal.AllDigits(whole)
    requires FormValue(first, ZipField) == zip && FormValue(again, ZipField) == before + zip + after
    requires FormValue(first, DepthField) == whole && FormValue(again, DepthField) == whole + ".0"
    ensures var s1 := Serve(cache, first, Decimal.Parse, reply1);
            s1.response.Page? && s1.response.explanation.Some? ==>
              Serve(s1.cache, again, Decimal.Parse, reply2) == Step(s1.response, s1.cache, None)
  {
    var respelled := whole + ".0";
    assert Decimal.IsDigit(whole[0]) && respelled[0] == whole[0] && respelled[|respelled| - 1] == '0';
    StrippedIsFixed(zip);
    StrippedIsFixed(whole);
    StrippedIsFixed(respelled);
    StripIgnoresPadding(before, zip, after);
    Decimal.PointZeroIgnored(whole);
    EquivalentRequestsShareEntry(cache, first, again, Decimal.Parse, reply1, reply2);
  }

  /** Two visits to a freshly started process: the first is a miss that
      generates and stores the text, the second (the same ZIP code padded with
      blanks, the depth spelled with ".0") is answered from the cache, whatever
      the generator would have done. */
  method RepeatVisit(zip: string, before: string, after: string, whole: string, content: string, reply2: Completion)
    returns (r1: Response, r2: Response)
    requires zip != [] && IsStripped(zip) && AllSpace(before) && AllSpace(after)
    requires whole != [] && Decimal.AllDigits(whole)
    ensures r1 == Page(Some(Strip(content)), None)
    ensures r2 == r1
  {
    var cache := new ExplanationCache<real>();
    var first := Request("POST", map[ZipField := zip, DepthField := whole]);
    var again := Request("POST", map[ZipField := before + zip + after, DepthField := whole + ".0"]);
    assert FormValue(first, ZipField) == zip && FormValue(first, DepthField) == whole;
    assert FormValue(again, ZipField) == before + zip + after && FormValue(again, DepthField) == whole + ".0";
    assert Decimal.IsDigit(whole[0]);
    StrippedIsFixed(zip);
    StrippedIsFixed(whole);
    Decimal.PointZeroIgnored(whole);
    assert ReadForm(first, Decimal.Parse).Accepted?;
    ServeResponds(map[], first, Decimal.Parse, Completed(content));
    r1 := cache.Index(first, Decimal.Parse, Completed(content));
    PaddedRespelledRequestHits(map[], first, again, zip, before, after, whole, Completed(content), reply2);
    r2 := cache.Index(again, Decimal.Parse, reply2);
  }
}
