# Link extractor pipeline: a Dafny model

The program reads a list of URLs, fetches each page on its own thread, hands the
responses to a single consumer through a bounded queue of capacity 100 with a
drop-oldest overflow policy, and for every page records the absolute form of
each link found on it. It then prints the records as text, one line per page
that has links.

This project models, sequentially, the three parts that carry that behaviour:

- `bounded_queue.dfy` (module `BoundedQueues`): the shared FIFO queue (Python's
  `queue.Queue` with `maxsize=100`) as a class with a `seq` buffer and a fixed
  capacity. It has non-blocking put and get, which report "full" and "empty"
  instead of raising, and blocking put and get.
- `main_module.dfy` (module `MainModule`): the module state `q` and `OUTPUT`
  as the class `Pipeline`, with its methods:
  - `Fetch` does the drop-oldest insertion.
  - `Producer` does one fetch per URL, then enqueues the sentinel `None` once.
  - `Consumer` drains the queue up to the first sentinel.
  - `RunSequentially` runs the producer, then the consumer.

  The pure parts are written as specification functions:
  - `DropOldestPut`, `FetchStep` and `FetchAll` give the queue contents.
  - `Successes` lists the responses of the successful fetches.
  - `Kept` is the href filter.
  - `ResolveAll` gives a page's links.
  - `Drained` and `SentinelIndex` describe what the consumer takes.
- `run_script.dfy` (module `RunScript`): string building in `run.py`.
  - `SetOutput` is the loop of `set_output`. It is proved equal to `Rendered`,
    the concatenation of one `Segment` per record.
  - `GetInput` is the tokenizer of `get_input`, `re.split(r"\s+", data.strip())`.
    It is built from `Strip` and `Split`, with Python's whitespace set written
    out by code point in `IsSpace`.

External behaviour becomes parameters of the model:

- The network is a function `fetch: Url -> Option<Response>`. `None` stands
  for a request exception: a connection error, a timeout, or an error status
  from `raise_for_status`. Because the outcome depends only on the URL, a
  URL that appears twice in the list gets the same outcome both times. The
  source makes two separate requests, whose outcomes can differ.
- A `Response` is the final URL and the `href` values of the page's anchors,
  in document order. HTML parsing is not modelled.
- `urljoin` is a parameter `join: (Url, string) -> Url`. Nothing is assumed
  about it, except in the lemma that restates the consumer test.

## Model

| member | source | states |
|---|---|---|
| `BoundedQueues.BoundedQueue.constructor` | src/main_module.py:29 | a new queue is empty and has the given positive capacity |
| `BoundedQueues.BoundedQueue.PutNowait` | src/main_module.py:41 | reports full exactly when the size equals the capacity; otherwise appends the item at the tail; a full queue is left unchanged |
| `BoundedQueues.BoundedQueue.GetNowait` | src/main_module.py:46 | on a non-empty queue returns the head and removes exactly it; on an empty queue returns None and changes nothing |
| `BoundedQueues.BoundedQueue.Put` | src/main_module.py:74 | with room in the queue, appends the item at the tail |
| `BoundedQueues.BoundedQueue.Get` | src/main_module.py:82 | on a non-empty queue returns the head and leaves the rest in order |
| `MainModule.Pipeline.constructor` | src/main_module.py:19-29 | the queue is fresh, empty and of capacity 100; the output list is empty |
| `MainModule.DropOldestPut` | src/main_module.py:41-48 | the new item is always admitted and is last; the size becomes min(size+1, capacity); the result is the newest items of old contents plus the new item |
| `MainModule.DropOldestWhenFull` | src/main_module.py:42-48 | on a full queue exactly the head is removed, the new item is appended, and the size stays at the capacity |
| `MainModule.DropOldestWithRoom` | src/main_module.py:41 | on a non-full queue the item is appended, earlier items are unchanged, and the size grows by one |
| `MainModule.FetchStep` | src/main_module.py:34-57 | the definition of one fetch's effect: a failed request leaves the queue as it was; a response goes in by drop-oldest insertion |
| `MainModule.Pipeline.Fetch` | src/main_module.py:34-57 | a failed fetch leaves the queue unchanged; a success performs the drop-oldest insertion and ends with the response as the last item; the size never exceeds 100 |
| `MainModule.FetchAll` | src/main_module.py:64-71 | after any sequence of fetches the queue size is still at most the capacity |
| `MainModule.FetchAllNewest` | src/main_module.py:64-71 | fetching URLs in order yields the newest min(n, capacity) items of the old contents followed by the successful responses in URL order; only the oldest items are lost |
| `MainModule.FetchAllWithRoom` | src/main_module.py:64-71 | when everything fits, the queue is the old contents followed by the successful responses, in URL order |
| `MainModule.AllSucceed` | src/main_module.py:64-71 | when every fetch succeeds there is one response per URL, response i being that of URL i |
| `MainModule.ProducerAllSucceed` | src/main_module.py:60-74 | on an empty queue with every fetch succeeding, the queue holds one response per URL in order, then one None, last; its size is len(urls)+1 |
| `MainModule.Pipeline.Producer` | src/main_module.py:60-74 | the queue ends as every URL's fetch applied in order, followed by exactly one sentinel |
| `MainModule.Kept` | src/main_module.py:97-105 | the definition of the href filter: an href is kept unless it is empty or starts with "#", "javascript:", "mailto:", "tel:" or "file:" |
| `MainModule.SkippedPrefixes` | src/main_module.py:97-105 | the empty href, and every href starting with "#", "javascript:", "mailto:", "tel:" or "file:", is skipped, whatever follows the prefix |
| `MainModule.KeptByFirstChar` | src/main_module.py:97-105 | a non-empty href whose first character begins none of the skipped prefixes is kept |
| `MainModule.KeptTestAnchors` | src/main_module.py:97-105 | of the test page's anchors, the absolute and the relative link are kept and "#ignore" is skipped |
| `MainModule.ResolveAll` | src/main_module.py:95-111 | a page never has more links than anchors |
| `MainModule.ResolveAllMembers` | src/main_module.py:95-111 | every link is join(url, h) for some kept href h of the page, and every kept href yields its link |
| `MainModule.ResolveAllAppend` | src/main_module.py:95-111 | links are produced anchor by anchor in anchor order: the links of concatenated anchor lists are the concatenated links |
| `MainModule.ResolveAllKept` | src/main_module.py:95-111 | when every href is kept, link i is join(url, href i) and the counts are equal |
| `MainModule.ExtractLinks` | src/main_module.py:92-111 | the inner loop's list equals ResolveAll of the page's hrefs |
| `MainModule.SentinelIndex` | src/main_module.py:81-87 | the index found holds None and no earlier item does |
| `MainModule.Drained` | src/main_module.py:81-112 | the definition of the consumer's records: one record (response URL, its resolved links) per item, in queue order, stopping at the first sentinel |
| `MainModule.DrainedSpec` | src/main_module.py:81-112 | the consumer makes exactly one record per item before the first sentinel, in dequeue order; record i is (url of item i, its resolved links) |
| `MainModule.DrainedBatch` | src/main_module.py:81-112 | on responses followed by one sentinel, the consumer records every response in order |
| `MainModule.ConsumerTestPages` | src/main_module.py:91-112 | given the test's three urljoin results, the two test pages yield exactly [(page1, [link1, relative/link2]), (page2, [link3])]; "#ignore" does not appear |
| `MainModule.Pipeline.Consumer` | src/main_module.py:78-112 | dequeues exactly up to and including the first sentinel and leaves the later items in the queue; appends Drained(queue) to the existing output, which is preserved |
| `MainModule.Pipeline.RunSequentially` | src/main_module.py:115-133 | producer then consumer on an empty queue: the queue ends empty and the output gains one record per successful fetch, in URL order |
| `MainModule.RunRecordsEveryUrl` | src/main_module.py:115-133 | when every fetch succeeds there is one record per URL, whose source is that URL's response URL |
| `RunScript.Segment` | run.py:71-77 | the definition of one record's text: "src: ", then, only when it has links, the links joined by ", " and a newline |
| `RunScript.Rendered` | run.py:71-77 | the definition of the whole text: the segments of the records, in order |
| `RunScript.SetOutput` | run.py:67-77 | the string built equals Rendered(output), the in-order concatenation of each record's segment; no records give "" |
| `RunScript.TrailIsJoinComma` | run.py:75-77 | the text accumulated for n ≥ 1 links is their ", "-join plus one trailing ", ", so the [:-2] slice removes exactly that final separator |
| `RunScript.CutTrail` | run.py:77 | slicing off two characters and adding "\n" turns the accumulated links into src + ": " + l1 + ", " + … + ln + "\n" |
| `RunScript.RenderedAppend` | run.py:71-77 | the rendering of a concatenation of record lists is the concatenation of their renderings |
| `RunScript.NoLinksSameLine` | run.py:72-74 | a record with no links contributes only "src: " with no newline, so the next record goes on the same line |
| `RunScript.NewlinesCountLinkedRecords` | run.py:71-77 | when no source or link holds a newline, the output has exactly one "\n" per record with at least one link |
| `RunScript.IsSpace` | run.py:61 | the definition of Python's whitespace set by code point: 9-13, 28-32, 0x85, 0xA0, 0x1680, 0x2000-0x200A, 0x2028, 0x2029, 0x202F, 0x205F and 0x3000 |
| `RunScript.LStrip` | run.py:61 | the result is a suffix; everything dropped is whitespace; it does not start with whitespace |
| `RunScript.RStrip` | run.py:61 | the result is a prefix; everything dropped is whitespace; it does not end with whitespace |
| `RunScript.Strip` | run.py:61 | the stripped text neither starts nor ends with whitespace |
| `RunScript.StripKeepsNonSpaceChars` | run.py:61 | stripping drops only whitespace |
| `RunScript.FirstSpace` | run.py:61 | the index is of the first whitespace character (or the length) and nothing before it is whitespace |
| `RunScript.Split` | run.py:61 | the split yields at least one piece, and no piece contains whitespace |
| `RunScript.SplitHasNoEmptyWord` | run.py:61 | a string with non-whitespace at both ends splits into non-empty words |
| `RunScript.SplitKeepsNonSpaceChars` | run.py:61 | the words run together are exactly the input's non-whitespace characters, in order |
| `RunScript.SplitInterleave` | run.py:61 | words separated by non-empty whitespace runs are read back exactly: the words are the maximal non-whitespace runs |
| `RunScript.GetInput` | run.py:61 | no token contains whitespace; blank input gives [""]; otherwise no token is empty |
| `RunScript.GetInputKeepsNonSpaceChars` | run.py:61 | the tokens run together are exactly the input's non-whitespace characters |
| `RunScript.GetInputReadsBack` | run.py:61 | any whitespace before, between and after a list of non-empty whitespace-free words gives back exactly those words |

## Left out

- Threads: the per-URL threads, their `join`, and the two-thread `main` are
  left out. The model fetches the URLs one after another in list order, then
  runs the consumer. `RunSequentially` stands for `main` under that schedule.
- The `except Empty` branch of `fetch` is left out. It can only be reached
  through a concurrent reader. Both of its paths put the response again, so
  `Pipeline.Fetch` always re-puts after the removal. Its diagnostic print is
  dropped.
- BoundedQueues.BoundedQueue.Put and BoundedQueues.BoundedQueue.Get: the
  source's blocking behaviour is modelled by requiring room (for `Put`) or an
  item (for `Get`). With no other thread, the blocking call would otherwise
  wait forever.
- MainModule.Pipeline.Producer requires room for the sentinel after the
  fetches. The source's sentinel put is blocking, not drop-oldest, so in the
  concurrent program it waits for the consumer. A sequential run with 100
  queued responses would deadlock instead.
- MainModule.Pipeline.Consumer requires a sentinel in the queue, for the same
  reason: its blocking get would otherwise wait forever.
- MainModule.Pipeline.RunSequentially requires fewer than 100 successful
  fetches and an empty queue. The first is what the sequential schedule
  needs; the second matches a fresh program start.
- The queue is modelled for a positive capacity only. Python treats
  `maxsize <= 0` as unbounded, but the program always uses 100.
- HTTP is a given outcome per URL: `requests.get`, its 10-second timeout and
  `raise_for_status`. Whether a redirect changed the URL is part of the given
  `Response`.
- HTML parsing with BeautifulSoup is left out. The model is given each page's
  anchor hrefs in document order.
- `urljoin` (reference resolution per section 5.2 of RFC 3986) is left
  uninterpreted. Only the consumer-test lemma fixes three of its values.
- Printing and diagnostics are left out throughout.
- Argument parsing, reading standard input or a file, and writing the text to
  standard output or a file are left out. So is the unittest runner in
  `run.py`'s `main`.
- The `FileNotFoundError` path and the `except Exception` path of
  `get_input` are left out. After either one, `data` is unbound, so the
  function fails instead of returning.
- MainModule.ResolveAll and MainModule.Pipeline.Consumer treat `join` as
  total. Python's `urljoin` can raise `ValueError`: the `urlsplit` it calls
  rejects a netloc with an unmatched bracket, as in the href `http://[oops`,
  which the filter keeps. The call in the consumer is not inside a `try`, so
  in the source that error ends the consumer thread. That page and every
  later item then get no record, the sentinel stays queued, and `main`
  returns the records made so far. The model promises a record for every
  item before the sentinel, so it does not capture this failure.
- Strings are sequences of Unicode code points. `IsSpace` lists Python's
  whitespace code points, i.e. `str.isspace`, which both `str.strip()` and
  `\s` use.
