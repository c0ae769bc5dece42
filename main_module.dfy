/** The fetch / producer / consumer pipeline of src/main_module.py, run
    sequentially. The network is a parameter `fetch` (None stands for a request
    exception, timeout or error status), each page is given as the href values
    of its anchors in document order, and URL resolution is a parameter `join`
    that the model leaves uninterpreted. */
module MainModule {
  import opened Wrappers
  import opened BoundedQueues

  /** Capacity of the shared response queue. */
  const MaxQueueSize: nat := 100

  type Url = string

  /** A successful response: its final URL and the hrefs of its anchors. */
  datatype Response = Response(url: Url, hrefs: seq<string>)

  /** A queue item: Some(response), or None, the sentinel that tells the
      consumer that no more responses will come. */
  type Item = Option<Response>

  /** One output entry: a page and the absolute links found on it. */
  datatype Record = Record(source: Url, links: seq<Url>)

  function Min(a: int, b: int): int
  {
    if a < b then a else b
  }

  // ----------------------------------------------------------------------
  // fetch: drop-oldest insertion into the bounded queue

  /** The queue after inserting `x` into `buf` under the drop-oldest policy:
      the incoming item is always admitted, and the queue keeps the newest
      items of `buf + [x]`, as many as fit. */
  function DropOldestPut<T>(buf: seq<T>, cap: nat, x: T): (r: seq<T>)
    requires 0 < cap && |buf| <= cap
    ensures |r| == Min(|buf| + 1, cap)
    ensures r == (buf + [x])[|buf| + 1 - |r|..]
  {
    if |buf| < cap then buf + [x] else buf[1..] + [x]
  }

  /** The queue after one fetch whose outcome is `outcome`. */
  function FetchStep(buf: seq<Item>, cap: nat, outcome: Option<Response>): seq<Item>
    requires 0 < cap && |buf| <= cap
  {
    if outcome.None? then buf else DropOldestPut(buf, cap, outcome)
  }

  /** The queue after fetching `urls` one after the other. */
  function FetchAll(buf: seq<Item>, cap: nat, urls: seq<Url>, fetch: Url -> Option<Response>): (r: seq<Item>)
    requires 0 < cap && |buf| <= cap
    ensures |r| <= cap
    decreases |urls|
  {
    if urls == [] then buf
    else FetchStep(FetchAll(buf, cap, urls[..|urls| - 1], fetch), cap, fetch(urls[|urls| - 1]))
  }

  /** The responses of the successful fetches, in URL order. */
  function Successes(urls: seq<Url>, fetch: Url -> Option<Response>): seq<Response>
    decreases |urls|
  {
    if urls == [] then []
    else
      var last := fetch(urls[|urls| - 1]);
      Successes(urls[..|urls| - 1], fetch) + (if last.None? then [] else [last.value])
  }

  /** Responses as queue items. */
  function AsItems(rs: seq<Response>): seq<Item>
  {
    seq(|rs|, i requires 0 <= i < |rs| => Some(rs[i]))
  }

  lemma AsItemsSnoc(rs: seq<Response>, r: Response)
    ensures AsItems(rs + [r]) == AsItems(rs) + [Some(r)]
  {
    assert AsItems(rs + [r])[..|rs|] == AsItems(rs);
  }

  /** Full queue: the oldest item goes, the new one comes last, the size stays
      at the capacity (the test fills the queue with a 1 and 99 zeros). */
  lemma DropOldestWhenFull<T>(buf: seq<T>, cap: nat, x: T)
    requires 0 < cap && |buf| == cap
    ensures DropOldestPut(buf, cap, x) == buf[1..] + [x]
    ensures |DropOldestPut(buf, cap, x)| == cap
  {
  }

  /** Room left: the item is appended and the earlier items stay as they were. */
  lemma DropOldestWithRoom<T>(buf: seq<T>, cap: nat, x: T)
    requires |buf| < cap
    ensures DropOldestPut(buf, cap, x) == buf + [x]
    ensures |DropOldestPut(buf, cap, x)| == |buf| + 1
  {
  }

  /** One drop-oldest insertion keeps "the newest items that fit". */
  lemma NewestStep<T>(all: seq<T>, r: seq<T>, cap: nat, x: T)
    requires 0 < cap && |r| == Min(|all|, cap) && r == all[|all| - |r|..]
    ensures var r' := DropOldestPut(r, cap, x);
            |r'| == Min(|all| + 1, cap) && r' == (all + [x])[|all| + 1 - |r'|..]
  {
    var r' := DropOldestPut(r, cap, x);
    var all' := all + [x];
    assert r + [x] == all'[|all'| - |r| - 1..];
    assert (r + [x])[|r| + 1 - |r'|..] == all'[|all'| - |r'|..];
  }

  /** Fetching a list of URLs one by one leaves in the queue the newest items
      of the old contents followed by the successful responses in URL order,
      as many as the capacity allows: nothing else is dropped. */
  lemma {:induction false} FetchAllNewest(buf: seq<Item>, cap: nat, urls: seq<Url>, fetch: Url -> Option<Response>)
    requires 0 < cap && |buf| <= cap
    ensures var all := buf + AsItems(Successes(urls, fetch));
            var r := FetchAll(buf, cap, urls, fetch);
            |r| == Min(|all|, cap) && r == all[|all| - |r|..]
    decreases |urls|
  {
    if urls == [] {
      assert buf + AsItems([]) == buf;
    } else {
      var init := urls[..|urls| - 1];
      var last := fetch(urls[|urls| - 1]);
      FetchAllNewest(buf, cap, init, fetch);
      var s0 := Successes(init, fetch);
      var all0 := buf + AsItems(s0);
      var r0 := FetchAll(buf, cap, init, fetch);
      assert FetchAll(buf, cap, urls, fetch) == FetchStep(r0, cap, last);
      if last.Some? {
        assert Successes(urls, fetch) == s0 + [last.value];
        AsItemsSnoc(s0, last.value);
        assert buf + AsItems(s0 + [last.value]) == all0 + [last];
        NewestStep(all0, r0, cap, last);
      } else {
        assert Successes(urls, fetch) == s0;
      }
    }
  }

  /** While there is room for every response, the queue is the old contents
      followed by the successful responses, in URL order. */
  lemma FetchAllWithRoom(buf: seq<Item>, cap: nat, urls: seq<Url>, fetch: Url -> Option<Response>)
    requires 0 < cap && |buf| + |Successes(urls, fetch)| <= cap
    ensures FetchAll(buf, cap, urls, fetch) == buf + AsItems(Successes(urls, fetch))
  {
    FetchAllNewest(buf, cap, urls, fetch);
  }

  /** When every fetch succeeds there is one response per URL, in URL order. */
  lemma {:induction false} AllSucceed(urls: seq<Url>, fetch: Url -> Option<Response>)
    requires forall u :: u in urls ==> fetch(u).Some?
    ensures |Successes(urls, fetch)| == |urls|
    ensures forall i :: 0 <= i < |urls| ==> Successes(urls, fetch)[i] == fetch(urls[i]).value
    decreases |urls|
  {
    if urls != [] {
      var init := urls[..|urls| - 1];
      assert forall u :: u in init ==> u in urls;
      AllSucceed(init, fetch);
    }
  }

  /** The producer on an empty queue where every fetch succeeds and all fit:
      one response per URL in URL order, then the sentinel, last. */
  lemma ProducerAllSucceed(urls: seq<Url>, fetch: Url -> Option<Response>)
    requires forall u :: u in urls ==> fetch(u).Some?
    requires |urls| < MaxQueueSize
    ensures var items := FetchAll([], MaxQueueSize, urls, fetch) + [None];
            |items| == |urls| + 1 && items[|urls|] == None
            && forall i :: 0 <= i < |urls| ==> items[i] == fetch(urls[i])
  {
    var rs := Successes(urls, fetch);
    AllSucceed(urls, fetch);
    FetchAllWithRoom([], MaxQueueSize, urls, fetch);
    var items := FetchAll([], MaxQueueSize, urls, fetch) + [None];
    assert [] + AsItems(rs) == AsItems(rs);
    assert items == AsItems(rs) + [None];
    forall i | 0 <= i < |urls|
      ensures items[i] == fetch(urls[i])
    {
      assert items[i] == Some(rs[i]);
    }
  }

  // ----------------------------------------------------------------------
  // consumer: href filter, link resolution, draining up to the sentinel

  /** An href is resolved unless it is empty or starts with "#",
      "javascript:", "mailto:", "tel:" or "file:". */
  predicate Kept(href: string)
  {
    !(href == ""
      || "#" <= href
      || "javascript:" <= href
      || "mailto:" <= href
      || "tel:" <= href
      || "file:" <= href)
  }

  /** The skipped kinds of href are skipped whatever follows the prefix. */
  lemma SkippedPrefixes(rest: string)
    ensures !Kept("") && !Kept("#" + rest) && !Kept("javascript:" + rest)
    ensures !Kept("mailto:" + rest) && !Kept("tel:" + rest) && !Kept("file:" + rest)
  {
  }

  /** The anchors of the first test page: two are kept, "#ignore" is not. */
  lemma KeptTestAnchors()
    ensures Kept("http://example.com/link1") && Kept("/relative/link2")
    ensures !Kept("#ignore")
  {
    KeptByFirstChar("http://example.com/link1");
    KeptByFirstChar("/relative/link2");
  }

  /** A non-empty href whose first character starts none of the skipped
      prefixes is kept. */
  lemma KeptByFirstChar(href: string)
    requires href != [] && href[0] !in {'#', 'j', 'm', 't', 'f'}
    ensures Kept(href)
  {
  }

  /** The links of a page: `join(base, h)` for every kept href `h`, in anchor
      order. */
  function ResolveAll(base: Url, hrefs: seq<string>, join: (Url, string) -> Url): (links: seq<Url>)
    ensures |links| <= |hrefs|
    decreases |hrefs|
  {
    if hrefs == [] then []
    else
      var h := hrefs[|hrefs| - 1];
      ResolveAll(base, hrefs[..|hrefs| - 1], join) + (if Kept(h) then [join(base, h)] else [])
  }

  /** Every link comes from a kept href, and every kept href gives a link. */
  lemma {:induction false} ResolveAllMembers(base: Url, hrefs: seq<string>, join: (Url, string) -> Url)
    ensures forall l :: l in ResolveAll(base, hrefs, join) ==> exists h :: h in hrefs && Kept(h) && l == join(base, h)
    ensures forall h :: h in hrefs && Kept(h) ==> join(base, h) in ResolveAll(base, hrefs, join)
    decreases |hrefs|
  {
    if hrefs != [] {
      var init := hrefs[..|hrefs| - 1];
      ResolveAllMembers(base, init, join);
      assert hrefs == init + [hrefs[|hrefs| - 1]];
      forall l | l in ResolveAll(base, hrefs, join)
        ensures exists h :: h in hrefs && Kept(h) && l == join(base, h)
      {
        if l in ResolveAll(base, init, join) {
          var h :| h in init && Kept(h) && l == join(base, h);
          assert h in hrefs;
        } else {
          assert l == join(base, hrefs[|hrefs| - 1]);
        }
      }
    }
  }

  /** Resolution goes anchor by anchor: the links of a concatenation are the
      concatenation of the links. */
  lemma {:induction false} ResolveAllAppend(base: Url, a: seq<string>, b: seq<string>, join: (Url, string) -> Url)
    ensures ResolveAll(base, a + b, join) == ResolveAll(base, a, join) + ResolveAll(base, b, join)
    decreases |b|
  {
    if b == [] {
      assert a + b == a;
    } else {
      var init := b[..|b| - 1];
      ResolveAllAppend(base, a, init, join);
      assert (a + b)[..|a + b| - 1] == a + init;
    }
  }

  /** When every href is kept, link i is the resolution of href i. */
  lemma {:induction false} ResolveAllKept(base: Url, hrefs: seq<string>, join: (Url, string) -> Url)
    requires forall h :: h in hrefs ==> Kept(h)
    ensures |ResolveAll(base, hrefs, join)| == |hrefs|
    ensures forall i :: 0 <= i < |hrefs| ==> ResolveAll(base, hrefs, join)[i] == join(base, hrefs[i])
    decreases |hrefs|
  {
    if hrefs != [] {
      var init := hrefs[..|hrefs| - 1];
      assert forall h :: h in init ==> h in hrefs;
      ResolveAllKept(base, init, join);
    }
  }

  /** The record the consumer appends for one response. */
  function RecordOf(response: Response, join: (Url, string) -> Url): Record
  {
    Record(response.url, ResolveAll(response.url, response.hrefs, join))
  }

  /** One record per response, in order. */
  function RecordsOf(rs: seq<Response>, join: (Url, string) -> Url): seq<Record>
  {
    seq(|rs|, i requires 0 <= i < |rs| => RecordOf(rs[i], join))
  }

  /** The position of the first sentinel. */
  function SentinelIndex(items: seq<Item>): (k: nat)
    requires None in items
    ensures k < |items| && items[k] == None
    ensures forall i :: 0 <= i < k ==> items[i] != None
  {
    if items[0] == None then 0
    else
      assert None in items[1..] by {
        var j :| 0 <= j < |items| && items[j] == None;
        assert items[1..][j - 1] == None;
      }
      1 + SentinelIndex(items[1..])
  }

  /** The records the consumer produces from `items`: one per item, up to the
      first sentinel. */
  function Drained(items: seq<Item>, join: (Url, string) -> Url): seq<Record>
  {
    if items == [] || items[0].None? then []
    else [RecordOf(items[0].value, join)] + Drained(items[1..], join)
  }

  /** The consumer yields exactly one record per item before the first
      sentinel, in dequeue order, each naming its response's URL. */
  lemma {:induction false} DrainedSpec(items: seq<Item>, join: (Url, string) -> Url)
    requires None in items
    ensures |Drained(items, join)| == SentinelIndex(items)
    ensures forall i :: 0 <= i < SentinelIndex(items) ==>
      Drained(items, join)[i] == RecordOf(items[i].value, join)
  {
    if items[0] != None {
      DrainedSpec(items[1..], join);
    }
  }

  /** What the consumer sees after the producer on an empty queue with room:
      the responses, then the sentinel; so it records every response. */
  lemma {:induction false} DrainedBatch(rs: seq<Response>, join: (Url, string) -> Url)
    ensures None in AsItems(rs) + [None]
    ensures SentinelIndex(AsItems(rs) + [None]) == |rs|
    ensures Drained(AsItems(rs) + [None], join) == RecordsOf(rs, join)
  {
    var items := AsItems(rs) + [None];
    assert items[|rs|] == None;
    if rs != [] {
      assert items[1..] == AsItems(rs[1..]) + [None];
      DrainedBatch(rs[1..], join);
      assert RecordsOf(rs, join) == [RecordOf(rs[0], join)] + RecordsOf(rs[1..], join);
    }
  }

  /** The two pages of the consumer test, given the three resolutions the
      test expects of `join`. */
  lemma ConsumerTestPages(join: (Url, string) -> Url)
    requires join("http://example.com/page1", "http://example.com/link1") == "http://example.com/link1"
    requires join("http://example.com/page1", "/relative/link2") == "http://example.com/relative/link2"
    requires join("http://example.com/page2", "http://example.com/link3") == "http://example.com/link3"
    ensures var page1 := Response("http://example.com/page1", ["http://example.com/link1", "/relative/link2", "#ignore"]);
            var page2 := Response("http://example.com/page2", ["http://example.com/link3"]);
            Drained([Some(page1), Some(page2), None], join)
            == [Record("http://example.com/page1", ["http://example.com/link1", "http://example.com/relative/link2"]),
                Record("http://example.com/page2", ["http://example.com/link3"])]
  {
    KeptTestAnchors();
    KeptByFirstChar("http://example.com/link3");
    var page1 := Response("http://example.com/page1", ["http://example.com/link1", "/relative/link2", "#ignore"]);
    var page2 := Response("http://example.com/page2", ["http://example.com/link3"]);
    var hrefs := page1.hrefs;
    assert hrefs[..2][..1] == ["http://example.com/link1"];
    assert hrefs[..2] == ["http://example.com/link1", "/relative/link2"];
    assert ResolveAll(page1.url, hrefs[..2][..1], join) == ["http://example.com/link1"];
    assert ResolveAll(page1.url, hrefs[..2], join) == ["http://example.com/link1", "http://example.com/relative/link2"];
    assert ResolveAll(page1.url, hrefs, join) == ResolveAll(page1.url, hrefs[..2], join);
    assert page2.hrefs[..0] == [];
    assert ResolveAll(page2.url, page2.hrefs, join) == ["http://example.com/link3"];
    var items := [Some(page1), Some(page2), None];
    assert items[1..][1..] == [None];
    assert Drained(items[1..], join) == [RecordOf(page2, join)];
    assert Drained(items, join) == [RecordOf(page1, join), RecordOf(page2, join)];
  }

  /** The links of one page, built anchor by anchor (the consumer's inner
      loop). */
  method ExtractLinks(base: Url, hrefs: seq<string>, join: (Url, string) -> Url) returns (links: seq<Url>)
    ensures links == ResolveAll(base, hrefs, join)
  {
    links := [];
    for i := 0 to |hrefs|
      invariant links == ResolveAll(base, hrefs[..i], join)
    {
      assert hrefs[..i + 1][..i] == hrefs[..i];
      var href := hrefs[i];
      if !Kept(href) {
        continue;
      }
      links := links + [join(base, href)];
    }
    assert hrefs[..|hrefs|] == hrefs;
  }

  // ----------------------------------------------------------------------
  // the module state: the queue q and the OUTPUT list

  class Pipeline {
    /** The shared response queue. */
    const q: BoundedQueue<Item>
    /** The collected records, appended to by the consumer only. */
    var output: seq<Record>

    ghost predicate Valid()
      reads this, q
    {
      q.Valid() && q.maxsize == MaxQueueSize
    }

    constructor ()
      ensures Valid() && fresh(q)
      ensures q.items == [] && output == []
    {
      q := new BoundedQueue<Item>(MaxQueueSize);
      output := [];
    }

    /** Fetch one URL. A failure enqueues nothing. A success is put at the
        tail; when the queue is full the oldest item is removed first. */
    method Fetch(url: Url, fetch: Url -> Option<Response>)
      requires Valid()
      modifies q
      ensures Valid()
      ensures q.items == FetchStep(old(q.items), q.maxsize, fetch(url))
      ensures fetch(url).None? ==> q.items == old(q.items)
      ensures fetch(url).Some? ==> q.items[|q.items| - 1] == fetch(url)
    {
      var outcome := fetch(url);
      if outcome.Some? {
        var full := q.PutNowait(outcome);
        if full {
          // The queue is full and therefore not empty: the removal succeeds.
          // The source puts the response again whether or not it did.
          var removed := q.GetNowait();
          full := q.PutNowait(outcome);
        }
      }
    }

    /** Fetch every URL in order, then enqueue the sentinel once. The
        sentinel goes in with a blocking put, so there must be room for it. */
    method Producer(urls: seq<Url>, fetch: Url -> Option<Response>)
      requires Valid()
      requires |FetchAll(q.items, q.maxsize, urls, fetch)| < q.maxsize
      modifies q
      ensures Valid()
      ensures q.items == FetchAll(old(q.items), q.maxsize, urls, fetch) + [None]
    {
      for i := 0 to |urls|
        invariant Valid()
        invariant q.items == FetchAll(old(q.items), q.maxsize, urls[..i], fetch)
      {
        assert urls[..i + 1][..i] == urls[..i];
        Fetch(urls[i], fetch);
      }
      assert urls[..|urls|] == urls;
      q.Put(None);
    }

    /** Dequeue until the first sentinel, appending one record per response.
        Nothing after the sentinel is dequeued. */
    method Consumer(join: (Url, string) -> Url)
      requires Valid() && None in q.items
      modifies this, q
      ensures Valid()
      ensures q.items == old(q.items)[SentinelIndex(old(q.items)) + 1..]
      ensures output == old(output) + Drained(old(q.items), join)
    {
      while true
        invariant Valid() && None in q.items
        invariant q.items[SentinelIndex(q.items) + 1..] == old(q.items)[SentinelIndex(old(q.items)) + 1..]
        invariant output + Drained(q.items, join) == old(output) + Drained(old(q.items), join)
        decreases |q.items|
      {
        ghost var before := q.items;
        var task := q.Get();
        if task.None? {
          break;
        }
        assert None in q.items by {
          var j :| 0 <= j < |before| && before[j] == None;
          assert q.items[j - 1] == None;
        }
        var links := ExtractLinks(task.value.url, task.value.hrefs, join);
        output := output + [Record(task.value.url, links)];
      }
    }

    /** The producer followed by the consumer, on an empty queue with room for
        every response: every successful fetch yields its record, in URL
        order, after the records already collected. */
    method RunSequentially(urls: seq<Url>, fetch: Url -> Option<Response>, join: (Url, string) -> Url)
      returns (result: seq<Record>)
      requires Valid() && q.items == []
      requires |Successes(urls, fetch)| < MaxQueueSize
      modifies this, q
      ensures Valid() && q.items == []
      ensures result == output
      ensures output == old(output) + RecordsOf(Successes(urls, fetch), join)
    {
      ghost var rs := Successes(urls, fetch);
      FetchAllWithRoom([], q.maxsize, urls, fetch);
      assert [] + AsItems(rs) == AsItems(rs);
      Producer(urls, fetch);
      DrainedBatch(rs, join);
      Consumer(join);
      result := output;
    }
  }

  /** With every fetch succeeding, a run records exactly one entry per URL. */
  lemma RunRecordsEveryUrl(urls: seq<Url>, fetch: Url -> Option<Response>, join: (Url, string) -> Url)
    requires forall u :: u in urls ==> fetch(u).Some?
    ensures |RecordsOf(Successes(urls, fetch), join)| == |urls|
    ensures forall i :: 0 <= i < |urls| ==>
      RecordsOf(Successes(urls, fetch), join)[i].source == fetch(urls[i]).value.url
  {
    AllSucceed(urls, fetch);
  }
}
