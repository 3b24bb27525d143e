/**
  The count route of `Router`: `from(COUNT_ROUTE).split(body()).process { … }`.
  The splitter turns the search result into one message per result item,
  each carrying the headers of the original request. The processor reads the
  `keywords` header of its message and, when it is a string, increments the
  per-keyword counter once for every piece of `keyword.split(" ")`.
 */
module Router {
  import opened KeywordSplit
  import opened TaggedCounters

  /** A header value as the processor sees it: a `String`, or any other
      object (the processor's `is String` test fails for it). */
  datatype HeaderValue = Text(text: string) | NonText

  /** A Camel message: a body and its headers. A missing header (`null` in
      Camel) is a name absent from `headers`. */
  datatype Message<T> = Message(body: T, headers: map<string, HeaderValue>)

  const KeywordsHeader: string := "keywords"

  /** The tag values the processor passes to `increment` for one message. */
  function KeywordTerms(headers: map<string, HeaderValue>): seq<string>
  {
    if KeywordsHeader in headers && headers[KeywordsHeader].Text?
    then Split(headers[KeywordsHeader].text, ' ')
    else []
  }

  /** `n` copies of `terms`, one after another. */
  function Repeat(terms: seq<string>, n: nat): seq<string>
  {
    if n == 0 then [] else Repeat(terms, n - 1) + terms
  }

  /** Processing `n` messages increments each term `n` times per occurrence
      in the header, `n * |terms|` increments in all. */
  lemma {:induction false} RepeatCounts(terms: seq<string>, n: nat, t: string)
    ensures |Repeat(terms, n)| == n * |terms|
    ensures multiset(Repeat(terms, n))[t] == n * multiset(terms)[t]
  {
    if n > 0 {
      var k := n - 1;
      RepeatCounts(terms, k, t);
      assert Repeat(terms, n) == Repeat(terms, k) + terms;
      assert multiset(Repeat(terms, n)) == multiset(Repeat(terms, k)) + multiset(terms);
      MulSucc(k, |terms|);
      MulSucc(k, multiset(terms)[t]);
    }
  }

  lemma MulSucc(k: nat, x: nat)
    ensures (k + 1) * x == k * x + x
  {
  }

  /** The `.process` lambda, run on one message of the split. It looks at the
      `keywords` header only, never at the message body. */
  method CountProcessor<T>(counter: TaggedCounter, exchange: Message<T>)
    requires counter.Valid()
    modifies counter
    ensures counter.Valid()
    ensures counter.history == old(counter.history) + KeywordTerms(exchange.headers)
  {
    if KeywordsHeader in exchange.headers && exchange.headers[KeywordsHeader].Text? {
      var keyword := exchange.headers[KeywordsHeader].text;
      var terms := Split(keyword, ' ');
      for i := 0 to |terms|
        invariant counter.Valid()
        invariant counter.history == old(counter.history) + terms[..i]
      {
        counter.Increment(terms[i]);
        assert terms[..i + 1] == terms[..i] + [terms[i]];
      }
      assert terms[..|terms|] == terms;
    }
  }

  /** `split(body())` followed by the processor on every part: each result
      item is processed as a message with the request's headers. */
  method CountRoute<T>(counter: TaggedCounter, exchange: Message<seq<T>>)
    requires counter.Valid()
    modifies counter
    ensures counter.Valid()
    ensures counter.history ==
      old(counter.history) + Repeat(KeywordTerms(exchange.headers), |exchange.body|)
    ensures forall t :: (Get(counter.counters, t) ==
      Get(old(counter.counters), t) + |exchange.body| * multiset(KeywordTerms(exchange.headers))[t])
    ensures Total(counter.counters) ==
      Total(old(counter.counters)) + |exchange.body| * |KeywordTerms(exchange.headers)|
    ensures KeywordTerms(exchange.headers) == [] || |exchange.body| == 0 ==>
      counter.counters == old(counter.counters) && counter.registered == old(counter.registered)
  {
    var terms := KeywordTerms(exchange.headers);
    var items := exchange.body;
    for i := 0 to |items|
      invariant counter.Valid()
      invariant counter.history == old(counter.history) + Repeat(terms, i)
    {
      CountProcessor(counter, Message(items[i], exchange.headers));
    }
    ghost var before, added := old(counter.history), Repeat(terms, |items|);
    forall t
      ensures Get(Tally(before + added), t) == Get(Tally(before), t) + |items| * multiset(terms)[t]
    {
      TallyAppend(before, added, t);
      RepeatCounts(terms, |items|, t);
    }
    TallyTotal(before);
    TallyTotal(before + added);
    RepeatCounts(terms, |items|, "");
    if terms == [] || |items| == 0 {
      assert added == [];
      assert before + added == before;
    }
  }

  lemma SplitBabyYoda()
    ensures Split("baby yoda", ' ') == ["baby", "yoda"]
  {
    var pieces := ["baby", "yoda"];
    assert Separated(pieces, ' ');
    assert pieces[1..] == ["yoda"];
    assert Join(pieces, ' ') == "baby yoda";
    SplitJoin(pieces, ' ');
  }

  /** A request for `"baby yoda"` whose search returns three items counts
      each of the two keywords three times, six increments in all. */
  method BabyYodaScenario() returns (baby: nat, yoda: nat, ghost total: nat)
    ensures baby == 3 && yoda == 3
    ensures total == 6
  {
    var counter := new TaggedCounter("per-keyword-messages", "keyword");
    var result := Message(["tweet 1", "tweet 2", "tweet 3"], map[KeywordsHeader := Text("baby yoda")]);
    SplitBabyYoda();
    assert KeywordTerms(result.headers) == ["baby", "yoda"];
    assert Total(map[]) == 0;
    CountRoute(counter, result);
    total := Total(counter.counters);
    assert Get(counter.counters, "baby") == 3 * multiset(["baby", "yoda"])["baby"];
    assert Get(counter.counters, "yoda") == 3 * multiset(["baby", "yoda"])["yoda"];
    baby := Get(counter.counters, "baby");
    yoda := Get(counter.counters, "yoda");
  }
}
