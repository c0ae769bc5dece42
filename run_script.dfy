/** The string work of run.py: rendering the collected records as text
    (set_output) and splitting the input text into URLs (get_input). Writing
    the text to a file or to standard output, and reading the input from one,
    are left to the caller. */
module RunScript {
  import opened MainModule

  // ----------------------------------------------------------------------
  // set_output

  /** The links of a record separated by ", ". */
  function JoinComma(links: seq<Url>): string
    requires links != []
    decreases |links|
  {
    if |links| == 1 then links[0] else links[0] + ", " + JoinComma(links[1..])
  }

  /** The text one record contributes: its source and ": ", then, only when
      it has links, the links separated by ", " and a newline. A record
      without links ends no line, so the next record continues on it. */
  function Segment(r: Record): string
  {
    r.source + ": " + (if r.links == [] then "" else JoinComma(r.links) + "\n")
  }

  /** The rendered output: the segments of the records, in order. */
  function Rendered(records: seq<Record>): string
    decreases |records|
  {
    if records == [] then "" else Segment(records[0]) + Rendered(records[1..])
  }

  /** Each link followed by ", ": the text before the final slice. */
  ghost function Trail(links: seq<Url>): string
    decreases |links|
  {
    if links == [] then "" else Trail(links[..|links| - 1]) + links[|links| - 1] + ", "
  }

  lemma {:induction false} JoinCommaSnoc(links: seq<Url>, l: Url)
    requires links != []
    ensures JoinComma(links + [l]) == JoinComma(links) + ", " + l
    decreases |links|
  {
    if |links| > 1 {
      assert (links + [l])[1..] == links[1..] + [l];
      JoinCommaSnoc(links[1..], l);
    }
  }

  /** The trailing ", " is the only difference between the accumulated text
      and the joined links, so removing two characters leaves the join. */
  lemma {:induction false} TrailIsJoinComma(links: seq<Url>)
    requires links != []
    ensures Trail(links) == JoinComma(links) + ", "
    decreases |links|
  {
    var init := links[..|links| - 1];
    var last := links[|links| - 1];
    if init != [] {
      TrailIsJoinComma(init);
      JoinCommaSnoc(init, last);
      assert init + [last] == links;
    }
  }

  /** The rendering of a concatenation is the concatenation of the
      renderings. */
  lemma {:induction false} RenderedAppend(a: seq<Record>, b: seq<Record>)
    ensures Rendered(a + b) == Rendered(a) + Rendered(b)
    decreases |a|
  {
    if a == [] {
      assert a + b == b;
    } else {
      assert (a + b)[1..] == a[1..] + b;
      RenderedAppend(a[1..], b);
    }
  }

  /** A record without links, followed by another record: both sit on one
      line. */
  lemma NoLinksSameLine(source: Url, next: Record)
    ensures Rendered([Record(source, []), next]) == source + ": " + Segment(next)
  {
    var rs := [Record(source, []), next];
    assert rs[1..] == [next] && [next][1..] == [];
    assert Rendered([next]) == Segment(next);
  }

  lemma RenderedSnoc(records: seq<Record>, r: Record)
    ensures Rendered(records + [r]) == Rendered(records) + Segment(r)
  {
    RenderedAppend(records, [r]);
    assert [r][1..] == [];
  }

  /** The step of set_output for a record with links: dropping the last two
      characters of the accumulated text and adding a newline. */
  lemma CutTrail(head: string, links: seq<Url>)
    requires links != []
    ensures var t := head + Trail(links);
            |t| >= 2 && t[..|t| - 2] + "\n" == head + (JoinComma(links) + "\n")
  {
    TrailIsJoinComma(links);
    var t := head + Trail(links);
    assert t == (head + JoinComma(links)) + ", ";
  }

  lemma SegmentWithoutLinks(r: Record, before: string)
    requires r.links == []
    ensures before + (r.source + ": ") == before + Segment(r)
  {
  }

  lemma SegmentWithLinks(r: Record, before: string)
    requires r.links != []
    ensures (before + (r.source + ": ")) + (JoinComma(r.links) + "\n") == before + Segment(r)
  {
  }

  /** The text set_output builds from `output`. */
  method SetOutput(output: seq<Record>) returns (text: string)
    ensures text == Rendered(output)
  {
    text := "";
    for i := 0 to |output|
      invariant text == Rendered(output[..i])
    {
      var o := output[i];
      assert output[..i + 1] == output[..i] + [o];
      RenderedSnoc(output[..i], o);
      ghost var before := text;
      text := text + (o.source + ": ");
      if |o.links| == 0 {
        SegmentWithoutLinks(o, before);
        continue;
      }
      ghost var head := text;
      for j := 0 to |o.links|
        invariant text == head + Trail(o.links[..j])
      {
        assert o.links[..j + 1][..j] == o.links[..j];
        assert Trail(o.links[..j + 1]) == Trail(o.links[..j]) + o.links[j] + ", ";
        text := text + o.links[j] + ", ";
      }
      assert o.links[..|o.links|] == o.links;
      CutTrail(head, o.links);
      text := text[..|text| - 2] + "\n";
      SegmentWithLinks(o, before);
    }
    assert output[..|output|] == output;
  }

  /** The number of occurrences of `c` in `s`. */
  function Count(c: char, s: string): nat
    decreases |s|
  {
    if s == [] then 0 else (if s[0] == c then 1 else 0) + Count(c, s[1..])
  }

  lemma {:induction false} CountAppend(c: char, a: string, b: string)
    ensures Count(c, a + b) == Count(c, a) + Count(c, b)
    decreases |a|
  {
    if a == [] {
      assert a + b == b;
    } else {
      assert (a + b)[1..] == a[1..] + b;
      CountAppend(c, a[1..], b);
    }
  }

  lemma {:induction false} CountJoinComma(c: char, links: seq<Url>)
    requires links != [] && c != ',' && c != ' '
    ensures Count(c, JoinComma(links)) == 0 <==> forall l :: l in links ==> Count(c, l) == 0
    decreases |links|
  {
    if |links| > 1 {
      CountJoinComma(c, links[1..]);
      CountAppend(c, links[0], ", ");
      CountAppend(c, links[0] + ", ", JoinComma(links[1..]));
      assert Count(c, ", ") == 0;
      assert forall l :: l in links <==> l == links[0] || l in links[1..];
    }
  }

  /** The number of records that have at least one link. */
  function WithLinks(records: seq<Record>): nat
    decreases |records|
  {
    if records == [] then 0 else (if records[0].links == [] then 0 else 1) + WithLinks(records[1..])
  }

  /** Neither the source nor a link of the record holds a newline. */
  predicate NoNewline(r: Record)
  {
    Count('\n', r.source) == 0 && forall l :: l in r.links ==> Count('\n', l) == 0
  }

  /** Only records with links end a line: the rendered text has one newline
      per such record. */
  /** A record's segment holds one newline if it has links, none otherwise. */
  lemma SegmentNewlines(r: Record)
    requires NoNewline(r)
    ensures Count('\n', Segment(r)) == if r.links == [] then 0 else 1
  {
    var tail := if r.links == [] then "" else JoinComma(r.links) + "\n";
    assert Segment(r) == (r.source + ": ") + tail;
    CountAppend('\n', r.source, ": ");
    assert Count('\n', ": ") == 0;
    CountAppend('\n', r.source + ": ", tail);
    if r.links != [] {
      CountJoinComma('\n', r.links);
      CountAppend('\n', JoinComma(r.links), "\n");
      assert Count('\n', "\n") == 1;
    }
  }

  lemma {:induction false} NewlinesCountLinkedRecords(records: seq<Record>)
    requires forall r :: r in records ==> NoNewline(r)
    ensures Count('\n', Rendered(records)) == WithLinks(records)
    decreases |records|
  {
    if records != [] {
      var r := records[0];
      assert r in records;
      assert forall x :: x in records[1..] ==> x in records;
      NewlinesCountLinkedRecords(records[1..]);
      assert Rendered(records) == Segment(r) + Rendered(records[1..]);
      CountAppend('\n', Segment(r), Rendered(records[1..]));
      SegmentNewlines(r);
    }
  }

  // ----------------------------------------------------------------------
  // get_input: strip, then split at every run of whitespace

  /** Python's notion of whitespace, the same for str.strip() and for \s in
      a regular expression over str: the characters below, by code point. */
  predicate IsSpace(c: char)
  {
    var n := c as int;
    (9 <= n <= 13) || (28 <= n <= 32) || n == 0x85 || n == 0xA0 || n == 0x1680
    || (0x2000 <= n <= 0x200A) || n == 0x2028 || n == 0x2029 || n == 0x202F
    || n == 0x205F || n == 0x3000
  }

  predicate NoSpace(s: string)
  {
    forall i :: 0 <= i < |s| ==> !IsSpace(s[i])
  }

  predicate AllSpace(s: string)
  {
    forall i :: 0 <= i < |s| ==> IsSpace(s[i])
  }

  /** `s` without its leading whitespace. */
  function LStrip(s: string): (r: string)
    ensures |r| <= |s| && r == s[|s| - |r|..]
    ensures AllSpace(s[..|s| - |r|])
    ensures r == [] || !IsSpace(r[0])
    decreases |s|
  {
    if s != [] && IsSpace(s[0]) then LStrip(s[1..]) else s
  }

  /** `s` without its trailing whitespace. */
  function RStrip(s: string): (r: string)
    ensures |r| <= |s| && r == s[..|r|]
    ensures AllSpace(s[|r|..])
    ensures r == [] || !IsSpace(r[|r| - 1])
    decreases |s|
  {
    if s != [] && IsSpace(s[|s| - 1]) then
      var r := RStrip(s[..|s| - 1]);
      assert s[|r|..] == s[..|s| - 1][|r|..] + [s[|s| - 1]];
      r
    else s
  }

  /** str.strip(): neither end of the result is whitespace. */
  function Strip(s: string): (r: string)
    ensures r == [] || (!IsSpace(r[0]) && !IsSpace(r[|r| - 1]))
  {
    RStrip(LStrip(s))
  }

  /** The index of the first whitespace character, or |s| if there is none. */
  function FirstSpace(s: string): (i: nat)
    ensures i <= |s| && NoSpace(s[..i])
    ensures i < |s| ==> IsSpace(s[i])
    decreases |s|
  {
    if s == [] || IsSpace(s[0]) then 0
    else
      var j := FirstSpace(s[1..]);
      assert s[..j + 1] == [s[0]] + s[1..][..j];
      1 + j
  }

  /** re.split(r"\s+", s): the pieces between the maximal runs of
      whitespace; a string with no whitespace is one piece, and leading or
      trailing whitespace gives an empty first or last piece. */
  function Split(s: string): (words: seq<string>)
    ensures words != []
    ensures forall k :: 0 <= k < |words| ==> NoSpace(words[k])
    decreases |s|
  {
    var i := FirstSpace(s);
    if i == |s| then
      assert s[..i] == s;
      [s]
    else
      var rest := LStrip(s[i..]);
      [s[..i]] + Split(rest)
  }

  /** get_input after the text is read: the words of the stripped input. No
      word holds whitespace; blank input gives the one word ""; otherwise no
      word is empty. */
  function GetInput(data: string): (words: seq<string>)
    ensures forall k :: 0 <= k < |words| ==> NoSpace(words[k])
    ensures Strip(data) == [] ==> words == [""]
    ensures Strip(data) != [] ==> forall k :: 0 <= k < |words| ==> words[k] != []
  {
    var s := Strip(data);
    if s == [] then
      assert FirstSpace(s) == 0;
      Split(s)
    else
      SplitHasNoEmptyWord(s);
      Split(s)
  }

  /** A string that neither starts nor ends with whitespace splits into
      non-empty words. */
  lemma {:induction false} SplitHasNoEmptyWord(s: string)
    requires s != [] && !IsSpace(s[0]) && !IsSpace(s[|s| - 1])
    ensures forall k :: 0 <= k < |Split(s)| ==> Split(s)[k] != []
    decreases |s|
  {
    var i := FirstSpace(s);
    if i < |s| {
      var rest := LStrip(s[i..]);
      assert rest[|rest| - 1] == s[|s| - 1];
      SplitHasNoEmptyWord(rest);
      assert Split(s) == [s[..i]] + Split(rest);
    }
  }

  /** The characters of `s` that are not whitespace, in order. */
  function NonSpaceChars(s: string): string
    decreases |s|
  {
    if s == [] then [] else (if IsSpace(s[0]) then [] else [s[0]]) + NonSpaceChars(s[1..])
  }

  /** The words run together. */
  function Concat(words: seq<string>): string
    decreases |words|
  {
    if words == [] then [] else words[0] + Concat(words[1..])
  }

  lemma {:induction false} NonSpaceCharsAppend(a: string, b: string)
    ensures NonSpaceChars(a + b) == NonSpaceChars(a) + NonSpaceChars(b)
    decreases |a|
  {
    if a == [] {
      assert a + b == b;
    } else {
      assert (a + b)[1..] == a[1..] + b;
      NonSpaceCharsAppend(a[1..], b);
    }
  }

  lemma {:induction false} NonSpaceCharsOfNoSpace(s: string)
    requires NoSpace(s)
    ensures NonSpaceChars(s) == s
    decreases |s|
  {
    if s != [] {
      NonSpaceCharsOfNoSpace(s[1..]);
    }
  }

  lemma {:induction false} NonSpaceCharsOfAllSpace(s: string)
    requires AllSpace(s)
    ensures NonSpaceChars(s) == []
    decreases |s|
  {
    if s != [] {
      NonSpaceCharsOfAllSpace(s[1..]);
    }
  }

  lemma {:induction false} LStripKeepsNonSpaceChars(s: string)
    ensures NonSpaceChars(LStrip(s)) == NonSpaceChars(s)
    decreases |s|
  {
    if s != [] && IsSpace(s[0]) {
      LStripKeepsNonSpaceChars(s[1..]);
    }
  }

  lemma {:induction false} RStripKeepsNonSpaceChars(s: string)
    ensures NonSpaceChars(RStrip(s)) == NonSpaceChars(s)
    decreases |s|
  {
    if s != [] && IsSpace(s[|s| - 1]) {
      var init := s[..|s| - 1];
      RStripKeepsNonSpaceChars(init);
      assert s == init + [s[|s| - 1]];
      NonSpaceCharsAppend(init, [s[|s| - 1]]);
      assert NonSpaceChars([s[|s| - 1]]) == [];
    }
  }

  /** Stripping drops whitespace only. */
  lemma StripKeepsNonSpaceChars(s: string)
    ensures NonSpaceChars(Strip(s)) == NonSpaceChars(s)
  {
    LStripKeepsNonSpaceChars(s);
    RStripKeepsNonSpaceChars(LStrip(s));
  }

  /** The characters before the first whitespace are all kept. */
  lemma {:induction false} NonSpaceCharsAtFirstSpace(s: string)
    ensures var i := FirstSpace(s);
            NonSpaceChars(s) == s[..i] + NonSpaceChars(s[i..])
    decreases |s|
  {
    if s != [] && !IsSpace(s[0]) {
      NonSpaceCharsAtFirstSpace(s[1..]);
      var j := FirstSpace(s[1..]);
      assert s[..j + 1] == [s[0]] + s[1..][..j];
      assert s[j + 1..] == s[1..][j..];
    }
  }

  /** Splitting drops whitespace only: the words run together are the
      non-whitespace characters of the input. */
  lemma {:induction false} SplitKeepsNonSpaceChars(s: string)
    ensures Concat(Split(s)) == NonSpaceChars(s)
    decreases |s|
  {
    var i := FirstSpace(s);
    NonSpaceCharsAtFirstSpace(s);
    if i == |s| {
      assert s[..i] == s && s[i..] == [];
      assert Split(s) == [s];
      assert Concat([s]) == s + Concat([]);
    } else {
      var rest := LStrip(s[i..]);
      SplitKeepsNonSpaceChars(rest);
      LStripKeepsNonSpaceChars(s[i..]);
      assert Split(s) == [s[..i]] + Split(rest);
      assert ([s[..i]] + Split(rest))[1..] == Split(rest);
    }
  }

  /** The words of the input run together are its non-whitespace
      characters. */
  lemma GetInputKeepsNonSpaceChars(data: string)
    ensures Concat(GetInput(data)) == NonSpaceChars(data)
  {
    SplitKeepsNonSpaceChars(Strip(data));
    StripKeepsNonSpaceChars(data);
  }

  /** Words joined by separators. */
  function Interleave(words: seq<string>, seps: seq<string>): string
    requires |words| == |seps| + 1
    decreases |seps|
  {
    if seps == [] then words[0] else words[0] + seps[0] + Interleave(words[1..], seps[1..])
  }

  /** What a list of words can be read back from: non-empty words without
      whitespace, separated by non-empty runs of whitespace. */
  predicate Separable(words: seq<string>, seps: seq<string>)
  {
    && |words| == |seps| + 1
    && (forall k :: 0 <= k < |words| ==> words[k] != [] && NoSpace(words[k]))
    && (forall k :: 0 <= k < |seps| ==> seps[k] != [] && AllSpace(seps[k]))
  }

  lemma SeparableTail(words: seq<string>, seps: seq<string>)
    requires Separable(words, seps) && seps != []
    ensures Separable(words[1..], seps[1..])
  {
    assert forall k :: 1 <= k < |words| ==> words[1..][k - 1] == words[k];
    assert forall k :: 1 <= k < |seps| ==> seps[1..][k - 1] == seps[k];
  }

  /** The joined text starts with the first word's first character. */
  lemma InterleaveFirst(words: seq<string>, seps: seq<string>)
    requires |words| == |seps| + 1 && words[0] != []
    ensures Interleave(words, seps) != [] && Interleave(words, seps)[0] == words[0][0]
  {
    if seps != [] {
      var w := words[0];
      var rest := seps[0] + Interleave(words[1..], seps[1..]);
      assert Interleave(words, seps) == w + rest;
      assert (w + rest)[0] == w[0];
    }
  }

  /** The joined text ends with the last word's last character. */
  lemma {:induction false} InterleaveLast(words: seq<string>, seps: seq<string>)
    requires |words| == |seps| + 1 && words[|words| - 1] != []
    ensures var s := Interleave(words, seps);
            var last := words[|words| - 1];
            s != [] && s[|s| - 1] == last[|last| - 1]
    decreases |seps|
  {
    if seps != [] {
      var tail := Interleave(words[1..], seps[1..]);
      assert words[1..][|words[1..]| - 1] == words[|words| - 1];
      InterleaveLast(words[1..], seps[1..]);
      var front := words[0] + seps[0];
      assert Interleave(words, seps) == front + tail;
      assert (front + tail)[|front + tail| - 1] == tail[|tail| - 1];
    }
  }

  lemma {:induction false} FirstSpaceAt(a: string, b: string)
    requires NoSpace(a) && (b == [] || IsSpace(b[0]))
    ensures FirstSpace(a + b) == |a|
    decreases |a|
  {
    if a == [] {
      assert a + b == b;
    } else {
      assert (a + b)[1..] == a[1..] + b;
      FirstSpaceAt(a[1..], b);
    }
  }

  lemma {:induction false} LStripSpaces(p: string, t: string)
    requires AllSpace(p) && (t == [] || !IsSpace(t[0]))
    ensures LStrip(p + t) == t
    decreases |p|
  {
    if p == [] {
      assert p + t == t;
    } else {
      assert (p + t)[1..] == p[1..] + t;
      LStripSpaces(p[1..], t);
    }
  }

  lemma {:induction false} RStripSpaces(t: string, p: string)
    requires AllSpace(p) && (t == [] || !IsSpace(t[|t| - 1]))
    ensures RStrip(t + p) == t
    decreases |p|
  {
    if p == [] {
      assert t + p == t;
    } else {
      assert (t + p)[..|t + p| - 1] == t + p[..|p| - 1];
      RStripSpaces(t, p[..|p| - 1]);
    }
  }

  /** One unfolding of Split at a given first whitespace position. */
  lemma SplitAt(s: string, i: nat, rest: string)
    requires i < |s| && FirstSpace(s) == i && LStrip(s[i..]) == rest
    ensures Split(s) == [s[..i]] + Split(rest)
  {
  }

  /** A word, a whitespace run, then text that starts with a non-whitespace
      character: the word is split off and the run is dropped. */
  lemma SplitStep(w: string, sep: string, tail: string)
    requires w != [] && NoSpace(w)
    requires sep != [] && AllSpace(sep)
    requires tail != [] && !IsSpace(tail[0])
    ensures Split(w + (sep + tail)) == [w] + Split(tail)
  {
    var rest := sep + tail;
    assert rest[0] == sep[0];
    var s := w + rest;
    FirstSpaceAt(w, rest);
    assert s[..|w|] == w && s[|w|..] == rest;
    LStripSpaces(sep, tail);
    SplitAt(s, |w|, tail);
  }

  /** Splitting undoes the joining: words separated by whitespace runs are
      read back exactly. */
  lemma {:induction false} SplitInterleave(words: seq<string>, seps: seq<string>)
    requires Separable(words, seps)
    ensures Split(Interleave(words, seps)) == words
    decreases |seps|
  {
    var w := words[0];
    assert w != [] && NoSpace(w);
    if seps == [] {
      FirstSpaceAt(w, []);
      assert w + [] == w;
      assert Split(w) == [w];
    } else {
      assert seps[0] != [] && AllSpace(seps[0]);
      assert words[1..][0] == words[1];
      SeparableTail(words, seps);
      var tail := Interleave(words[1..], seps[1..]);
      InterleaveFirst(words[1..], seps[1..]);
      assert !IsSpace(tail[0]);
      assert Interleave(words, seps) == w + (seps[0] + tail);
      SplitStep(w, seps[0], tail);
      SplitInterleave(words[1..], seps[1..]);
      assert words == [w] + words[1..];
    }
  }

  /** get_input reads back every list of words, whatever whitespace
      surrounds and separates them. */
  lemma GetInputReadsBack(words: seq<string>, seps: seq<string>, lead: string, trail: string)
    requires Separable(words, seps) && AllSpace(lead) && AllSpace(trail)
    ensures GetInput(lead + Interleave(words, seps) + trail) == words
  {
    var x := Interleave(words, seps);
    assert words[0] != [] && NoSpace(words[0]);
    assert words[|words| - 1] != [] && NoSpace(words[|words| - 1]);
    InterleaveFirst(words, seps);
    InterleaveLast(words, seps);
    assert lead + x + trail == lead + (x + trail);
    LStripSpaces(lead, x + trail);
    RStripSpaces(x, trail);
    SplitInterleave(words, seps);
  }
}
