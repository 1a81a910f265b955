/**
 * The request handler of the flood-risk web page: read a ZIP code and a flood
 * depth from a submitted form, validate them, and answer with an explanation
 * text memoised per (ZIP code, depth) in a process-wide cache. Once the
 * generator has produced the text for a key it is never asked about that key
 * again; a call that raised stores nothing, so the next request with that key
 * asks again.
 *
 * The depth is a value of any type D with equality; `parse` stands in for
 * Python's `float()` (module Decimal gives one such parser). The text
 * generator is an oracle: the `Completion` passed with a request is what the
 * generator would return or raise if it were called for that request.
 */
module FloodApp {
  import opened Wrappers
  import opened Text

  const ZipField := "zip_code"
  const DepthField := "depth"
  const BothMessage := "Please enter both ZIP code and flood depth."
  const NumberMessage := "Flood depth must be a number."

  /** An HTTP request: its method and its form fields. */
  datatype Request = Request(httpMethod: string, form: map<string, string>)

  /** `request.form.get(name, "")`: a missing field reads as empty. */
  function FormValue(req: Request, name: string): string {
    if name in req.form then req.form[name] else ""
  }

  /** The cache key: the stripped ZIP code and the parsed depth. */
  datatype Key<D(==)> = Key(zip: string, depth: D)

  /** What the handler gives back: the page rendered with `explanation` and
      `error` (either may be absent), or a server error when an exception
      escapes the handler. */
  datatype Response = Page(explanation: Option<string>, error: Option<string>) | InternalError

  /** The outcome of reading the form: not a POST, a validation message, or a
      key to look up. */
  datatype FormResult<D(==)> = NotSubmitted | Rejected(message: string) | Accepted(key: Key<D>)

  /** Validation of the submitted form. The emptiness check of both stripped
      fields comes first, so an empty depth is always reported with the "both"
      message, and the "number" message appears exactly when both fields are
      present and the depth does not parse. */
  function ReadForm<D(==)>(req: Request, parse: string -> Option<D>): (r: FormResult<D>)
    ensures r.NotSubmitted? <==> req.httpMethod != "POST"
    ensures r == Rejected(BothMessage)
        <==> req.httpMethod == "POST"
             && (Strip(FormValue(req, ZipField)) == [] || Strip(FormValue(req, DepthField)) == [])
    ensures r == Rejected(NumberMessage)
        <==> req.httpMethod == "POST"
             && Strip(FormValue(req, ZipField)) != [] && Strip(FormValue(req, DepthField)) != []
             && parse(Strip(FormValue(req, DepthField))).None?
    ensures r.Rejected? ==> r.message == BothMessage || r.message == NumberMessage
    ensures r.Accepted? ==>
              && req.httpMethod == "POST"
              && r.key.zip == Strip(FormValue(req, ZipField)) && r.key.zip != []
              && parse(Strip(FormValue(req, DepthField))) == Some(r.key.depth)
  {
    if req.httpMethod != "POST" then
      NotSubmitted
    else
      var zip := Strip(FormValue(req, ZipField));
      var depthText := Strip(FormValue(req, DepthField));
      if zip == [] || depthText == [] then
        Rejected(BothMessage)
      else
        match parse(depthText)
        case None => Rejected(NumberMessage)
        case Some(depth) => Accepted(Key(zip, depth))
  }

  /** What the text generator does when it is called: return the message
      content of the reply, or raise. A raised `ValueError` is told apart
      because the handler's `except ValueError` catches it. */
  datatype Completion = Completed(content: string) | Raised(isValueError: bool)

  /** `generate_flood_risk_text` after the backend call: the reply's content
      with surrounding whitespace removed, or nothing when the call raised. */
  function GenerateFloodRiskText(c: Completion): (r: Option<string>)
    ensures r.Some? <==> c.Completed?
    ensures r.Some? ==> IsStripped(r.value)
  {
    match c
    case Completed(content) => Some(Strip(content))
    case Raised(_) => None
  }

  /** One call of the generator: the key it was asked about and the text it
      produced (nothing when it raised). */
  datatype Call<D(==)> = Call(key: Key<D>, produced: Option<string>)

  /** What a call leaves in the cache: its text under its key, if it produced one. */
  function Apply<D(==)>(cache: map<Key<D>, string>, c: Call<D>): (m: map<Key<D>, string>)
    ensures m.Keys == if c.produced.Some? then cache.Keys + {c.key} else cache.Keys
    ensures forall k :: k in cache && k != c.key ==> m[k] == cache[k]
    ensures c.produced.Some? ==> m[c.key] == c.produced.value
    ensures c.produced.None? ==> m == cache
  {
    if c.produced.Some? then cache[c.key := c.produced.value] else cache
  }

  /** The cache that a history of generator calls leaves, starting from `cache`. */
  function ReplayOnto<D(==)>(cache: map<Key<D>, string>, calls: seq<Call<D>>): map<Key<D>, string>
    decreases |calls|
  {
    if calls == [] then cache else ReplayOnto(Apply(cache, calls[0]), calls[1..])
  }

  /** Every call in the history was made for a key the cache did not hold at
      that moment: the generator only runs on a miss. */
  predicate OnlyOnMiss<D(==)>(cache: map<Key<D>, string>, calls: seq<Call<D>>) {
    forall i :: 0 <= i < |calls| ==> calls[i].key !in ReplayOnto(cache, calls[..i])
  }

  /** The effect of one request: the response, the new cache, and the
      generator call it made, if any. */
  datatype Step<D(==)> = Step(response: Response, cache: map<Key<D>, string>, call: Option<Call<D>>)

  /** One run of `index` against the cache `cache`, with `reply` the
      generator's outcome should it be called. ServeCallsOnMiss,
      ServeKeepsEntries, ServeHit and ServeResponds state what it does. */
  function Serve<D(==)>(cache: map<Key<D>, string>, req: Request, parse: string -> Option<D>, reply: Completion): Step<D> {
    match ReadForm(req, parse)
    case NotSubmitted => Step(Page(None, None), cache, None)
    case Rejected(message) => Step(Page(None, Some(message)), cache, None)
    case Accepted(key) =>
      if key in cache then
        Step(Page(Some(cache[key]), None), cache, None)
      else
        var c := Call(key, GenerateFloodRiskText(reply));
        match reply
        case Completed(_) => Step(Page(c.produced, None), Apply(cache, c), Some(c))
        case Raised(true) => Step(Page(None, Some(NumberMessage)), cache, Some(c))
        case Raised(false) => Step(InternalError, cache, Some(c))
  }

  /** The generator is called exactly on an accepted request whose key is
      missing, and the cache changes only by what that call produced. */
  lemma ServeCallsOnMiss<D>(cache: map<Key<D>, string>, req: Request, parse: string -> Option<D>, reply: Completion)
    ensures var r := Serve(cache, req, parse, reply);
            var f := ReadForm(req, parse);
            && (r.call.Some? <==> f.Accepted? && f.key !in cache)
            && (r.call.Some? ==> r.call.value == Call(f.key, GenerateFloodRiskText(reply)))
            && r.cache == if r.call.Some? then Apply(cache, r.call.value) else cache
  {
  }

  /** No request overwrites or removes an entry. */
  lemma ServeKeepsEntries<D>(cache: map<Key<D>, string>, req: Request, parse: string -> Option<D>, reply: Completion, k: Key<D>)
    requires k in cache
    ensures var r := Serve(cache, req, parse, reply);
            k in r.cache && r.cache[k] == cache[k]
  {
  }

  /** An accepted request whose key is cached is answered with the cached
      text, without a generator call and without changing the cache; what the
      generator would have done does not matter. */
  lemma ServeHit<D>(cache: map<Key<D>, string>, req: Request, parse: string -> Option<D>, reply: Completion, k: Key<D>)
    requires ReadForm(req, parse) == Accepted(k) && k in cache
    ensures Serve(cache, req, parse, reply) == Step(Page(Some(cache[k]), None), cache, None)
  {
  }

  /** The response to each outcome of validation and of the generator. */
  lemma ServeResponds<D>(cache: map<Key<D>, string>, req: Request, parse: string -> Option<D>, reply: Completion)
    ensures var r := Serve(cache, req, parse, reply);
            var f := ReadForm(req, parse);
            && (f.NotSubmitted? ==> r.response == Page(None, None))
            && (f.Rejected? ==> r.response == Page(None, Some(f.message)))
            && (f.Accepted? && r.response.Page? && r.response.explanation.Some? ==>
                  f.key in r.cache && r.response == Page(Some(r.cache[f.key]), None))
            && (f.Accepted? && f.key !in cache && reply.Completed? ==>
                  r.response == Page(Some(Strip(reply.content)), None))
            && (r.response == InternalError <==> r.call.Some? && reply == Raised(false))
            && (r.call.Some? && reply == Raised(true) ==> r.response == Page(None, Some(NumberMessage)))
            && (r.response.Page? ==> r.response.explanation.None? || r.response.error.None?)
  {
  }

  /** Every cached text has no surrounding whitespace. */
  predicate AllStripped<D(==)>(cache: map<Key<D>, string>) {
    forall k :: k in cache ==> IsStripped(cache[k])
  }

  /** What a request stores is stripped text, so a cache of stripped texts
      stays one. */
  lemma ServeStoresStrippedText<D>(cache: map<Key<D>, string>, req: Request, parse: string -> Option<D>, reply: Completion)
    requires AllStripped(cache)
    ensures AllStripped(Serve(cache, req, parse, reply).cache)
  {
    ServeCallsOnMiss(cache, req, parse, reply);
  }

  /** The calls a step made, as a history. */
  function CallsOf<D(==)>(s: Step<D>): seq<Call<D>> {
    if s.call.Some? then [s.call.value] else []
  }

  /** `ReplayOnto` over a history extended by one call. */
  lemma {:induction false} ReplayAppend<D>(cache: map<Key<D>, string>, calls: seq<Call<D>>, c: Call<D>)
    ensures ReplayOnto(cache, calls + [c]) == Apply(ReplayOnto(cache, calls), c)
    decreases |calls|
  {
    if calls == [] {
      assert [] + [c] == [c];
      assert [c][1..] == [];
    } else {
      assert (calls + [c])[0] == calls[0];
      assert (calls + [c])[1..] == calls[1..] + [c];
      ReplayAppend(Apply(cache, calls[0]), calls[1..], c);
    }
  }

  /** `ReplayOnto` over two histories one after the other. */
  lemma {:induction false} ReplayConcat<D>(cache: map<Key<D>, string>, a: seq<Call<D>>, b: seq<Call<D>>)
    ensures ReplayOnto(cache, a + b) == ReplayOnto(ReplayOnto(cache, a), b)
    decreases |a|
  {
    if a == [] {
      assert a + b == b;
    } else {
      assert (a + b)[0] == a[0];
      assert (a + b)[1..] == a[1..] + b;
      ReplayConcat(Apply(cache, a[0]), a[1..], b);
    }
  }

  /** Replaying calls never removes a key. */
  lemma {:induction false} ReplayKeepsKeys<D>(cache: map<Key<D>, string>, calls: seq<Call<D>>)
    ensures cache.Keys <= ReplayOnto(cache, calls).Keys
    decreases |calls|
  {
    if calls != [] {
      ReplayKeepsKeys(Apply(cache, calls[0]), calls[1..]);
    }
  }

  /** A history made only on misses stays one after its first call. */
  lemma OnlyOnMissTail<D>(cache: map<Key<D>, string>, calls: seq<Call<D>>)
    requires calls != [] && OnlyOnMiss(cache, calls)
    ensures calls[0].key !in cache
    ensures OnlyOnMiss(Apply(cache, calls[0]), calls[1..])
  {
    assert calls[..0] == [];
    var tail := calls[1..];
    forall i | 0 <= i < |tail|
      ensures tail[i].key !in ReplayOnto(Apply(cache, calls[0]), tail[..i])
    {
      assert calls[..i + 1][0] == calls[0];
      assert calls[..i + 1][1..] == tail[..i];
      assert tail[i] == calls[i + 1];
    }
  }

  /** Extending a history made only on misses by a call for a missing key. */
  lemma OnlyOnMissAppend<D>(cache: map<Key<D>, string>, calls: seq<Call<D>>, c: Call<D>)
    requires OnlyOnMiss(cache, calls) && c.key !in ReplayOnto(cache, calls)
    ensures OnlyOnMiss(cache, calls + [c])
  {
    var ext := calls + [c];
    forall i | 0 <= i < |ext| ensures ext[i].key !in ReplayOnto(cache, ext[..i]) {
      if i < |calls| {
        assert ext[..i] == calls[..i];
        assert ext[i] == calls[i];
      } else {
        assert ext[..i] == calls;
      }
    }
  }

  /** When the generator runs only on misses, the entries present before are
      never overwritten by later calls. */
  lemma {:induction false} ReplayNeverOverwrites<D>(cache: map<Key<D>, string>, calls: seq<Call<D>>, k: Key<D>)
    requires OnlyOnMiss(cache, calls) && k in cache
    ensures k in ReplayOnto(cache, calls) && ReplayOnto(cache, calls)[k] == cache[k]
    decreases |calls|
  {
    if calls != [] {
      OnlyOnMissTail(cache, calls);
      ReplayNeverOverwrites(Apply(cache, calls[0]), calls[1..], k);
    }
  }

  /** At most one successful computation per key: once a call has produced
      the text for a key, no later call is made for that key. */
  lemma ComputedAtMostOnce<D>(cache: map<Key<D>, string>, calls: seq<Call<D>>, i: nat, j: nat)
    requires OnlyOnMiss(cache, calls)
    requires i < j < |calls| && calls[i].produced.Some?
    ensures calls[j].key != calls[i].key
  {
    assert calls[..i + 1] == calls[..i] + [calls[i]];
    ReplayAppend(cache, calls[..i], calls[i]);
    assert calls[..j] == calls[..i + 1] + calls[i + 1..j];
    ReplayConcat(cache, calls[..i + 1], calls[i + 1..j]);
    ReplayKeepsKeys(ReplayOnto(cache, calls[..i + 1]), calls[i + 1..j]);
  }

  /** The explanation cache of the web process: the dictionary `cache` of the
      source, keyed by (ZIP code, depth). `Calls` records every call of the
      generator made by `Index`; the cache is exactly what those calls
      produced, and each was made on a miss. */
  class ExplanationCache<D(==)> {
    var entries: map<Key<D>, string>
    ghost var Calls: seq<Call<D>>

    ghost predicate Valid()
      reads this
    {
      && entries == ReplayOnto(map[], Calls)
      && OnlyOnMiss(map[], Calls)
    }

    /** The cache starts empty when the process starts. */
    constructor ()
      ensures Valid() && entries == map[] && Calls == []
    {
      entries := map[];
      Calls := [];
    }

    /** The `index` handler: validate the form, then answer from the cache or
        call the generator once and store its text. */
    method Index(req: Request, parse: string -> Option<D>, reply: Completion) returns (response: Response)
      requires Valid()
      modifies this
      ensures Valid()
      ensures var s := Serve(old(entries), req, parse, reply);
              response == s.response && entries == s.cache && Calls == old(Calls) + CallsOf(s)
    {
      ghost var s := Serve(entries, req, parse, reply);
      var explanation: Option<string> := None;
      var error: Option<string> := None;
      if req.httpMethod == "POST" {
        var zip := Strip(FormValue(req, ZipField));
        var depthText := Strip(FormValue(req, DepthField));
        if zip == [] || depthText == [] {
          assert s == Step(Page(None, Some(BothMessage)), entries, None);
          error := Some(BothMessage);
        } else {
          var depth := parse(depthText);
          if depth.None? {
            assert s == Step(Page(None, Some(NumberMessage)), entries, None);
            error := Some(NumberMessage);
          } else {
            var key := Key(zip, depth.value);
            assert ReadForm(req, parse) == Accepted(key);
            if key in entries {
              assert s == Step(Page(Some(entries[key]), None), entries, None);
              explanation := Some(entries[key]);
            } else {
              var text := GenerateFloodRiskText(reply);
              var c := Call(key, text);
              assert s.call == Some(c);
              OnlyOnMissAppend(map[], Calls, c);
              ReplayAppend(map[], Calls, c);
              Calls := Calls + [c];
              if reply == Raised(false) {
                assert s == Step(InternalError, entries, Some(c));
                return InternalError;
              } else if reply == Raised(true) {
                assert s == Step(Page(None, Some(NumberMessage)), entries, Some(c));
                error := Some(NumberMessage);
              } else {
                explanation := text;
                entries := entries[key := text.value];
                assert s == Step(Page(explanation, None), entries, Some(c));
              }
            }
          }
        }
      } else {
        assert s == Step(Page(None, None), entries, None);
      }
      response := Page(explanation, error);
    }
  }
}
