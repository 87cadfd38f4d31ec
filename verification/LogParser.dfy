/** The log parser in place (HW10-LogParser/src/main.c): growing entry arrays, the
    statistics of a thread, reading a file, dealing files and merging threads. */
module LogParser {
  import opened Basics
  import opened LogStats
  import opened LogParse
  import opened LogParallel

  // --- What lines and files count ---

  /** The text up to its terminator. */
  function CString(buffer: string): string {
    if buffer == "" || buffer[0] == '\0' then "" else [buffer[0]] + CString(buffer[1..])
  }

  function ParsedStats(p: Parsed): Stats {
    match p
    case Ignored => ZERO
    case Hit(url, size, None) => Stats(map[url := size], map[], size)
    case Hit(url, size, Some(ref)) => Stats(map[url := size], map[ref := 1], size)
  }

  /** What one buffer read from a file adds. */
  function LineStats(line: string): Stats {
    ParsedStats(Parse(CString(line)))
  }

  /** The statistics of the program as something threads can share. */
  function LogTally(): Tally<Stats> {
    Tally(ZERO, (a, b) => Combine(a, b), line => LineStats(line))
  }

  lemma LogTallyLawful()
    ensures Lawful(LogTally())
  {
    forall a: Stats, b: Stats, c: Stats ensures Law(LogTally(), a, b, c) {
      CombineLaws(a, b, c);
    }
  }

  const BUFFER: nat := 8191

  /** How much of the text `fgets` reads: up to a line end, at most 8191 characters. */
  function ChunkLength(text: string, max: nat): (n: nat)
    requires text != "" && max > 0
    ensures 0 < n <= |text| && n <= max
    decreases max
  {
    if text[0] == '\n' || max == 1 || |text| == 1 then 1 else 1 + ChunkLength(text[1..], max - 1)
  }

  /** The buffers `fgets` delivers. */
  function Chunks(text: string): (chunks: seq<string>)
    decreases |text|
  {
    if text == "" then []
    else
      var n := ChunkLength(text, BUFFER);
      [text[..n]] + Chunks(text[n..])
  }

  function Joined(chunks: seq<string>): string {
    if chunks == [] then "" else chunks[0] + Joined(chunks[1..])
  }

  lemma JoinedFirst(chunk: string, chunks: seq<string>)
    ensures Joined([chunk] + chunks) == chunk + Joined(chunks)
  {
    assert ([chunk] + chunks)[1..] == chunks;
  }

  /** Reading loses nothing. */
  lemma {:induction false} ChunksJoin(text: string)
    ensures Joined(Chunks(text)) == text
    decreases |text|
  {
    hide ChunkLength;
    if text != "" {
      var n := ChunkLength(text, BUFFER);
      ChunksJoin(text[n..]);
      JoinedFirst(text[..n], Chunks(text[n..]));
      assert text == text[..n] + text[n..];
    }
  }

  /** The lines of a file, or none if it cannot be opened. */
  function FileLines(file: Option<string>): seq<string> {
    match file
    case None => []
    case Some(text) => Chunks(text)
  }

  // --- A file of rendered lines ---

  /** What one line of the combined log format records; `slash` says that a slash follows
      the URL in the line. */
  datatype Request = Request(prefix: string, url: string, slash: bool, tail: string, status: nat, size: nat, ref: string,
                             rest: string)

  function LineOf(r: Request): string {
    Render(r.prefix, if r.slash then r.url + "/" else r.url, r.tail, r.status, Decimal(r.size), r.ref, r.rest)
  }

  /** The line can be taken apart again, is one text line, and fits into the buffer with
      its line end. */
  predicate Regular(r: Request) {
    && '"' !in r.prefix && ' ' !in r.url && '"' !in r.tail && '"' !in r.ref
    && (if r.slash then r.url != "" else |r.url| <= 1 || r.url[|r.url| - 1] != '/')
    && '\0' !in LineOf(r) && '\n' !in LineOf(r) && |LineOf(r)| <= 8190
  }

  function FileOf(rs: seq<Request>): string {
    if rs == [] then "" else (LineOf(rs[0]) + "\n") + FileOf(rs[1..])
  }

  function HitOf(r: Request): Parsed {
    Hit(r.url, r.size, if r.ref == "" then None else Some(r.ref))
  }

  /** What the requests add up to. */
  function RequestStats(rs: seq<Request>): Stats {
    if rs == [] then ZERO else Combine(ParsedStats(HitOf(rs[0])), RequestStats(rs[1..]))
  }

  /** All sizes together, those of the requests for one URL, and how often one referer
      is named. */
  function Bytes(rs: seq<Request>): nat {
    if rs == [] then 0 else rs[0].size + Bytes(rs[1..])
  }

  function BytesOf(rs: seq<Request>, url: string): nat {
    if rs == [] then 0 else (if rs[0].url == url then rs[0].size else 0) + BytesOf(rs[1..], url)
  }

  function Mentions(rs: seq<Request>, ref: string): nat {
    if rs == [] then 0 else (if rs[0].ref == ref then 1 else 0) + Mentions(rs[1..], ref)
  }

  lemma OneRequest(r: Request, url: string, ref: string)
    requires ref != ""
    ensures var s := ParsedStats(HitOf(r));
            && s.bytes == r.size
            && (url in s.urls <==> r.url == url) && ValueAt(s.urls, url) == (if r.url == url then r.size else 0)
            && (ref in s.refs <==> r.ref == ref) && ValueAt(s.refs, ref) == (if r.ref == ref then 1 else 0)
            && "" !in s.refs
  {
  }

  lemma {:induction false} RequestSums(rs: seq<Request>, url: string, ref: string)
    requires ref != ""
    ensures var s := RequestStats(rs);
            && s.bytes == Bytes(rs)
            && (url in s.urls <==> exists k :: 0 <= k < |rs| && rs[k].url == url) && ValueAt(s.urls, url) == BytesOf(rs, url)
            && (ref in s.refs <==> Mentions(rs, ref) > 0) && ValueAt(s.refs, ref) == Mentions(rs, ref)
            && "" !in s.refs
  {
    hide ParsedStats, HitOf, Plus;
    if rs != [] {
      var first, rest := ParsedStats(HitOf(rs[0])), RequestStats(rs[1..]);
      OneRequest(rs[0], url, ref);
      RequestSums(rs[1..], url, ref);
      PlusAt(first.urls, rest.urls);
      PlusAt(first.refs, rest.refs);
      UrlStep(rs, url);
    }
  }

  lemma UrlStep(rs: seq<Request>, url: string)
    requires rs != []
    ensures (exists k :: 0 <= k < |rs| && rs[k].url == url)
       <==> rs[0].url == url || exists k :: 0 <= k < |rs[1..]| && rs[1..][k].url == url
  {
    if k :| 0 <= k < |rs| && rs[k].url == url {
      if k > 0 { assert rs[1..][k - 1].url == url; }
    }
    if k :| 0 <= k < |rs[1..]| && rs[1..][k].url == url {
      assert rs[k + 1].url == url;
    }
  }

  lemma {:induction false} CStringWhole(s: string)
    requires '\0' !in s
    ensures CString(s) == s
  {
    if s != "" {
      assert s == [s[0]] + s[1..];
      CStringWhole(s[1..]);
    }
  }

  lemma {:induction false} LineIsChunk(line: string, rest: string, max: nat)
    requires '\n' !in line && |line| < max
    ensures ChunkLength((line + "\n") + rest, max) == |line| + 1
    decreases max
  {
    var text := (line + "\n") + rest;
    if line == "" {
      assert text[0] == '\n';
    } else {
      assert text[0] == line[0] && text[0] in line;
      assert text[1..] == (line[1..] + "\n") + rest;
      LineIsChunk(line[1..], rest, max - 1);
    }
  }

  /** `fgets` delivers the lines of such a file one by one: a line of at most 8190
      characters arrives with its line end. */
  lemma FirstLine(line: string, rest: string)
    requires '\n' !in line && |line| <= 8190
    ensures Chunks((line + "\n") + rest) == [line + "\n"] + Chunks(rest)
  {
    hide ChunkLength;
    var text := (line + "\n") + rest;
    LineIsChunk(line, rest, BUFFER);
    assert text[..|line| + 1] == line + "\n" && text[|line| + 1..] == rest;
  }

  lemma {:induction false} CutAtMax(text: string, max: nat)
    requires 0 < max <= |text| && '\n' !in text[..max]
    ensures ChunkLength(text, max) == max
    decreases max
  {
    assert text[0] == text[..max][0];
    if max > 1 {
      assert text[1..][..max - 1] == text[..max][1..];
      CutAtMax(text[1..], max - 1);
    }
  }

  /** Without a line end among its first 8191 characters a text is cut behind them. */
  lemma LongLineCut(piece: string, rest: string)
    requires |piece| == 8191 && '\n' !in piece
    ensures Chunks(piece + rest) == [piece] + Chunks(rest)
  {
    hide ChunkLength;
    var text := piece + rest;
    assert text[..8191] == piece && text[8191..] == rest;
    CutAtMax(text, 8191);
  }

  /** A NUL ends the text of a buffer, so what follows it in a line is not counted. */
  lemma {:induction false} CStringEnds(a: string, b: string)
    requires '\0' !in a
    ensures CString(a + ("\0" + b)) == a
  {
    var s := a + ("\0" + b);
    if a == "" {
      assert s[0] == '\0';
    } else {
      assert s[0] == a[0] && s[1..] == a[1..] + ("\0" + b);
      CStringEnds(a[1..], b);
    }
  }

  lemma LineCounts(r: Request)
    requires Regular(r)
    ensures LineStats(LineOf(r) + "\n") == ParsedStats(HitOf(r))
  {
    hide Render, Parse, ParsedStats;
    CStringWhole(LineOf(r) + "\n");
    RenderMore(r.prefix, if r.slash then r.url + "/" else r.url, r.tail, r.status, Decimal(r.size), r.ref, r.rest, "\n");
    ParseRender(r.prefix, r.url, r.tail, r.status, r.size, r.ref, r.rest + "\n");
  }

  /** Reading a file of rendered requests, cut into buffers and terminated strings, counts
      every byte once under its URL without a slash at the end, and every referer as
      often as it is named. */
  lemma FileOfRequests(rs: seq<Request>, url: string, ref: string)
    requires ref != "" && forall r :: r in rs ==> Regular(r)
    ensures var s := Sequential(LogTally(), FileLines(Some(FileOf(rs))));
            && s.bytes == Bytes(rs)
            && (url in s.urls <==> exists k :: 0 <= k < |rs| && rs[k].url == url) && ValueAt(s.urls, url) == BytesOf(rs, url)
            && (ref in s.refs <==> Mentions(rs, ref) > 0) && ValueAt(s.refs, ref) == Mentions(rs, ref)
            && "" !in s.refs
  {
    hide Regular, FileOf, RequestStats, Sequential, FileLines;
    FileAddsUp(rs);
    RequestSums(rs, url, ref);
  }

  lemma {:induction false} FileAddsUp(rs: seq<Request>)
    requires forall r :: r in rs ==> Regular(r)
    ensures Sequential(LogTally(), FileLines(Some(FileOf(rs)))) == RequestStats(rs)
  {
    hide Regular, LineOf, HitOf, ParsedStats, LineStats, Combine, Chunks, Sequential;
    if rs == [] {
      EmptyFile();
    } else {
      FileAddsUp(rs[1..]);
      FirstRequest(rs[0], FileOf(rs[1..]));
    }
  }

  lemma EmptyFile()
    ensures Sequential(LogTally(), Chunks("")) == ZERO
  {
  }

  lemma FirstRequest(r: Request, rest: string)
    requires Regular(r)
    ensures Sequential(LogTally(), Chunks((LineOf(r) + "\n") + rest))
         == Combine(ParsedStats(HitOf(r)), Sequential(LogTally(), Chunks(rest)))
  {
    hide LineOf, HitOf, ParsedStats, LineStats, Combine, Chunks, Sequential;
    var chunks := Chunks((LineOf(r) + "\n") + rest);
    FirstLine(LineOf(r), rest);
    LogTallyLawful();
    SequentialFirst(LogTally(), chunks);
    assert chunks[1..] == Chunks(rest);
    LineCounts(r);
  }

  // --- Growing arrays of entries ---

  class EntryMap {
    var entries: array<HashEntry>
    var size: nat
    var capacity: nat
    /** How many entries all reallocations so far have copied. */
    ghost var copied: nat

    ghost predicate Shaped()
      reads this, entries
    {
      && entries.Length == capacity && size <= capacity && UniqueKeys(Contents())
      && (capacity == 0 || Doubled(16, capacity))
      && copied == (if capacity == 0 then 0 else capacity - 16)
    }

    /** An array beyond the first is more than half full, so the reallocations have
        copied fewer entries than twice those stored. */
    ghost predicate Valid()
      reads this, entries
      ensures Valid() ==> copied == 0 || copied < 2 * size
    {
      Shaped() && (capacity > 16 ==> capacity < 2 * size)
    }

    ghost function Contents(): (es: Entries)
      requires size <= entries.Length
      reads this, entries
    {
      entries[..size]
    }

    constructor ()
      ensures Valid() && Contents() == [] && fresh(entries)
    {
      entries := new HashEntry[0];
      size, capacity, copied := 0, 0, 0;
    }

    method Grow()
      requires Shaped() && size == capacity
      modifies this
      ensures Shaped() && fresh(entries) && Contents() == old(Contents()) && size == old(size) < capacity
      ensures capacity == if size == 0 then 16 else 2 * size
    {
      ghost var es := Contents();
      var newCapacity := if capacity == 0 then 16 else capacity * 2;
      var bigger := new HashEntry[newCapacity];
      for i := 0 to size
        invariant bigger[..i] == es[..i]
        invariant unchanged(this) && unchanged(entries)
      {
        bigger[i] := entries[i];
      }
      copied := copied + size;
      if capacity > 0 {
        DoubledAgain(16, capacity);
      }
      entries, capacity := bigger, newCapacity;
    }

    /** `add_entry`. */
    method AddEntry(key: string, delta: int)
      requires Valid()
      modifies this, entries
      ensures Valid() && Contents() == AddTo(old(Contents()), key, delta)
      ensures entries == old(entries) || fresh(entries)
      ensures HasKey(old(Contents()), key) || old(size) < old(capacity) ==> capacity == old(capacity)
      ensures (!HasKey(old(Contents()), key) && old(size) == old(capacity)
               ==> capacity == if old(size) == 0 then 16 else 2 * old(size))
    {
      hide AddTo, UniqueKeys, Doubled;
      ghost var es := Contents();
      AddToKeys(es, key, delta);
      for i := 0 to size
        invariant Valid() && Contents() == es && entries == old(entries)
        invariant forall k :: 0 <= k < i ==> es[k].key != key
      {
        if entries[i].key == key {
          AddToAt(es, key, delta, i);
          entries[i] := HashEntry(key, entries[i].value + delta);
          return;
        }
      }
      AddToEnd(es, key, delta);
      if size >= capacity {
        Grow();
      }
      entries[size] := HashEntry(key, delta);
      size := size + 1;
      assert Contents() == es + [HashEntry(key, delta)];
    }
  }

  lemma {:induction false} AddToAt(es: Entries, key: string, delta: int, i: nat)
    requires i < |es| && es[i].key == key && forall k :: 0 <= k < i ==> es[k].key != key
    ensures AddTo(es, key, delta) == es[i := HashEntry(key, es[i].value + delta)]
  {
    if i > 0 {
      AddToAt(es[1..], key, delta, i - 1);
    }
  }

  lemma {:induction false} AddToEnd(es: Entries, key: string, delta: int)
    requires forall k :: 0 <= k < |es| ==> es[k].key != key
    ensures AddTo(es, key, delta) == es + [HashEntry(key, delta)]
  {
    if es != [] {
      AddToEnd(es[1..], key, delta);
    }
  }

  /** `merge_maps`. */
  method MergeMaps(dest: EntryMap, src: EntryMap)
    requires dest.Valid() && src.Valid() && dest != src && dest.entries != src.entries
    modifies dest, dest.entries
    ensures dest.Valid() && dest.Contents() == MergeInto(old(dest.Contents()), old(src.Contents()))
    ensures dest.entries == old(dest.entries) || fresh(dest.entries)
  {
    ghost var d, s := dest.Contents(), src.Contents();
    for i := 0 to src.size
      invariant dest.Valid() && src.Valid() && src.Contents() == s && dest.entries != src.entries
      invariant dest.entries == old(dest.entries) || fresh(dest.entries)
      invariant src.entries == old(src.entries) && src.size == |s|
      invariant MergeInto(dest.Contents(), s[i..]) == MergeInto(d, s)
    {
      assert s[i..][1..] == s[i + 1..] && s[i..][0] == s[i];
      dest.AddEntry(src.entries[i].key, src.entries[i].value);
    }
  }

  // --- One thread ---

  /** `ThreadStats`. The values under the URLs always sum up to the byte total. */
  class ThreadStats {
    const urlMap: EntryMap
    const refMap: EntryMap
    var totalBytes: int

    ghost predicate Valid()
      reads this, urlMap, refMap, urlMap.entries, refMap.entries
    {
      && urlMap != refMap && urlMap.entries != refMap.entries && urlMap.Valid() && refMap.Valid()
      && Total(urlMap.Contents()) == totalBytes
    }

    ghost function Contents(): Stats
      requires Valid()
      reads this, urlMap, refMap, urlMap.entries, refMap.entries
    {
      Stats(ToCounts(urlMap.Contents()), ToCounts(refMap.Contents()), totalBytes)
    }

    ghost function Footprint(): set<object>
      reads this, urlMap, refMap
    {
      {this, urlMap, refMap, urlMap.entries, refMap.entries}
    }

    constructor ()
      ensures Valid() && Contents() == ZERO && fresh(Footprint())
    {
      urlMap := new EntryMap();
      refMap := new EntryMap();
      totalBytes := 0;
    }

    /** `total_bytes += size` and `add_url`. */
    method AddUrl(url: string, size: int)
      requires Valid()
      modifies this, urlMap, urlMap.entries
      ensures Valid() && fresh(Footprint() - old(Footprint()))
      ensures Contents() == Stats(Plus(old(Contents()).urls, map[url := size]), old(Contents()).refs, old(Contents()).bytes + size)
    {
      AddToCounts(urlMap.Contents(), url, size);
      AddToTotal(urlMap.Contents(), url, size);
      totalBytes := totalBytes + size;
      urlMap.AddEntry(url, size);
    }

    /** `add_ref`. */
    method AddRef(ref: string)
      requires Valid()
      modifies refMap, refMap.entries
      ensures Valid() && fresh(Footprint() - old(Footprint()))
      ensures Contents() == Stats(old(Contents()).urls, Plus(old(Contents()).refs, map[ref := 1]), old(Contents()).bytes)
    {
      AddToCounts(refMap.Contents(), ref, 1);
      refMap.AddEntry(ref, 1);
    }

    /** `parse_log_line`: what the line is parsed to is what the maps receive. */
    method ParseLogLine(line: string)
      requires Valid()
      modifies Footprint()
      ensures Valid() && fresh(Footprint() - old(Footprint()))
      ensures Contents() == Combine(old(Contents()), LineStats(line))
    {
      hide Parse, CString, Plus, ToCounts, Total, UniqueKeys, Doubled;
      var parsed := Parse(CString(line));
      CombineParsed(Contents(), parsed);
      if parsed.Hit? {
        AddUrl(parsed.url, parsed.size);
        if parsed.ref.Some? {
          AddRef(parsed.ref.value);
        }
      }
    }

    /** `process_file`: nothing if the file cannot be opened, else every buffer in turn. */
    method ProcessFile(file: Option<string>)
      requires Valid()
      modifies Footprint()
      ensures Valid() && fresh(Footprint() - old(Footprint()))
      ensures Contents() == Combine(old(Contents()), Sequential(LogTally(), FileLines(file)))
    {
      hide LineStats, Sequential, Combine, ChunkLength;
      NothingSeen(Contents());
      if file.None? {
        return;
      }
      ghost var before := Contents();
      ghost var seen: seq<string> := [];
      var text := file.value;
      while text != ""
        invariant Valid() && fresh(Footprint() - old(Footprint()))
        invariant seen + Chunks(text) == Chunks(file.value)
        invariant Counted(before, seen, Contents())
        decreases |text|
      {
        var n := ChunkLength(text, BUFFER);
        var buffer := text[..n];
        CountOneMore(before, seen, Contents(), buffer);
        NextChunk(seen, text);
        ParseLogLine(buffer);
        seen := seen + [buffer];
        text := text[n..];
      }
      assert seen + [] == seen;
    }
  }

  lemma CombineParsed(before: Stats, p: Parsed)
    ensures Combine(before, ParsedStats(p))
         == match p
            case Ignored => before
            case Hit(url, size, None) => Stats(Plus(before.urls, map[url := size]), before.refs, before.bytes + size)
            case Hit(url, size, Some(ref)) =>
              Stats(Plus(before.urls, map[url := size]), Plus(before.refs, map[ref := 1]), before.bytes + size)
  {
    match p
    case Ignored =>
      CombineLaws(before, ZERO, ZERO);
    case Hit(url, size, None) =>
      PlusNothing(before.refs);
    case Hit(url, size, Some(ref)) =>
  }

  /** What the statistics are once the buffers seen have been added to `before`. */
  ghost predicate Counted(before: Stats, seen: seq<string>, now: Stats) {
    now == Combine(before, Sequential(LogTally(), seen))
  }

  lemma NothingSeen(before: Stats)
    ensures Counted(before, [], before)
  {
    CombineLaws(before, ZERO, ZERO);
  }

  lemma NextChunk(seen: seq<string>, text: string)
    requires text != ""
    ensures var n := ChunkLength(text, BUFFER);
            seen + Chunks(text) == (seen + [text[..n]]) + Chunks(text[n..])
  {
  }

  lemma CountOneMore(before: Stats, seen: seq<string>, now: Stats, line: string)
    requires Counted(before, seen, now)
    ensures Counted(before, seen + [line], Combine(now, LineStats(line)))
  {
    assert (seen + [line])[..|seen|] == seen;
    CombineLaws(before, Sequential(LogTally(), seen), LineStats(line));
  }

  lemma CountFile(before: Stats, seen: seq<string>, now: Stats, lines: seq<string>)
    requires Counted(before, seen, now)
    ensures Counted(before, seen + lines, Combine(now, Sequential(LogTally(), lines)))
  {
    hide Combine, Sequential;
    LogTallyLawful();
    SequentialConcat(LogTally(), seen, lines);
    CombineLaws(before, Sequential(LogTally(), seen), Sequential(LogTally(), lines));
  }

  // --- Dealing the files ---

  /** A directory entry; only regular files are parsed. */
  datatype DirEntry = DirEntry(name: string, regular: bool)

  /** The paths of the regular files, in directory order. */
  function Paths(dir: string, entries: seq<DirEntry>): seq<string> {
    if entries == [] then []
    else
      var e := entries[|entries| - 1];
      Paths(dir, entries[..|entries| - 1]) + (if e.regular then [dir + "/" + e.name] else [])
  }

  /** Exactly the regular entries occur, in the order of the directory, each behind the
      directory and a slash: the path of entry k is the one behind the paths before it. */
  lemma {:induction false} PathsOfRegular(dir: string, entries: seq<DirEntry>, k: nat)
    requires k < |entries| && entries[k].regular
    ensures |Paths(dir, entries[..k])| < |Paths(dir, entries)|
    ensures Paths(dir, entries)[|Paths(dir, entries[..k])|] == dir + "/" + entries[k].name
  {
    var before := entries[..|entries| - 1];
    if k < |before| {
      PathsOfRegular(dir, before, k);
      assert before[..k] == entries[..k];
    }
  }

  lemma {:induction false} PathsRegular(dir: string, entries: seq<DirEntry>, i: nat) returns (k: nat)
    requires i < |Paths(dir, entries)|
    ensures k < |entries| && entries[k].regular && |Paths(dir, entries[..k])| == i
  {
    var before := entries[..|entries| - 1];
    if i < |Paths(dir, before)| {
      k := PathsRegular(dir, before, i);
      assert before[..k] == entries[..k];
    } else {
      k := |before|;
    }
  }

  /** `split_files`: the paths are dealt to the buckets in turn. */
  method SplitFiles(dir: string, entries: seq<DirEntry>, nthreads: nat) returns (buckets: array<seq<string>>)
    requires nthreads > 0
    ensures fresh(buckets) && buckets.Length == nthreads
    ensures forall i :: 0 <= i < nthreads ==> buckets[i] == Bucket(Paths(dir, entries), nthreads, i)
  {
    buckets := new seq<string>[nthreads](_ => []);
    var index := 0;
    for k := 0 to |entries|
      invariant index == |Paths(dir, entries[..k])|
      invariant forall i :: 0 <= i < nthreads ==> buckets[i] == Bucket(Paths(dir, entries[..k]), nthreads, i)
    {
      ghost var paths := Paths(dir, entries[..k]);
      assert entries[..k + 1][..k] == entries[..k];
      if entries[k].regular {
        var path := dir + "/" + entries[k].name;
        var tid := index % nthreads;
        TurnIsRemainder(index, nthreads);
        assert Paths(dir, entries[..k + 1]) == paths + [path];
        forall i | 0 <= i < nthreads
          ensures Bucket(paths + [path], nthreads, i) == Bucket(paths, nthreads, i) + (if i == tid then [path] else [])
        {
          BucketGrows(paths, path, nthreads, i);
        }
        buckets[tid] := buckets[tid] + [path];
        index := index + 1;
      } else {
        assert Paths(dir, entries[..k + 1]) == paths;
      }
    }
    assert entries[..|entries|] == entries;
  }

  // --- The whole program ---

  /** The lines of the files at the paths; `contents` is None where a file cannot be
      opened. */
  function LinesAt(contents: string -> Option<string>, paths: seq<string>): (lines: seq<seq<string>>)
    ensures |lines| == |paths|
  {
    if paths == [] then []
    else LinesAt(contents, paths[..|paths| - 1]) + [FileLines(contents(paths[|paths| - 1]))]
  }

  lemma LinesAtSnoc(contents: string -> Option<string>, paths: seq<string>, path: string)
    ensures LinesAt(contents, paths + [path]) == LinesAt(contents, paths) + [FileLines(contents(path))]
  {
    assert (paths + [path])[..|paths|] == paths;
  }

  lemma NothingToDeal(contents: string -> Option<string>, n: nat, i: nat)
    requires i < n
    ensures Bucket(LinesAt(contents, []), n, i) == LinesAt(contents, Bucket([], n, i))
  {
  }

  /** `thread_function`: the files of one bucket, one after the other. */
  method ThreadFunction(stats: ThreadStats, paths: seq<string>, contents: string -> Option<string>)
    requires stats.Valid()
    modifies stats.Footprint()
    ensures stats.Valid() && fresh(stats.Footprint() - old(stats.Footprint()))
    ensures stats.Contents()
         == Combine(old(stats.Contents()), Sequential(LogTally(), AllLines(LinesAt(contents, paths))))
  {
    hide Combine, Sequential, FileLines, LinesAt, AllLines, Plus, ToCounts, Total, UniqueKeys, Doubled;
    ghost var before := stats.Contents();
    NothingRead(before, contents);
    for i := 0 to |paths|
      invariant stats.Valid() && fresh(stats.Footprint() - old(stats.Footprint()))
      invariant Counted(before, AllLines(LinesAt(contents, paths[..i])), stats.Contents())
    {
      CountFile(before, AllLines(LinesAt(contents, paths[..i])), stats.Contents(), FileLines(contents(paths[i])));
      NextFile(contents, paths, i);
      stats.ProcessFile(contents(paths[i]));
    }
    assert paths[..|paths|] == paths;
  }

  lemma NothingRead(before: Stats, contents: string -> Option<string>)
    ensures Counted(before, AllLines(LinesAt(contents, [])), before)
  {
    NothingSeen(before);
  }

  lemma NextFile(contents: string -> Option<string>, paths: seq<string>, i: nat)
    requires i < |paths|
    ensures AllLines(LinesAt(contents, paths[..i + 1]))
         == AllLines(LinesAt(contents, paths[..i])) + FileLines(contents(paths[i]))
  {
    hide FileLines;
    assert paths[..i + 1] == paths[..i] + [paths[i]];
    LinesAtSnoc(contents, paths[..i], paths[i]);
    var lines, file := LinesAt(contents, paths[..i]), FileLines(contents(paths[i]));
    assert (lines + [file])[..|lines|] == lines;
  }

  /** Dealing the paths and then reading the files is dealing the files. */
  lemma {:induction false} BucketOfLines(contents: string -> Option<string>, paths: seq<string>, n: nat, i: nat)
    requires i < n
    ensures Bucket(LinesAt(contents, paths), n, i) == LinesAt(contents, Bucket(paths, n, i))
  {
    hide FileLines, TurnOf, Bucket, LinesAt;
    if paths == [] {
      NothingToDeal(contents, n, i);
    } else {
      var before, path := paths[..|paths| - 1], paths[|paths| - 1];
      assert paths == before + [path];
      BucketOfLines(contents, before, n, i);
      LinesAtSnoc(contents, before, path);
      BucketGrows(before, path, n, i);
      BucketGrows(LinesAt(contents, before), FileLines(contents(path)), n, i);
      var dealt := Bucket(before, n, i);
      if TurnOf(|before|, n) == i {
        LinesAtSnoc(contents, dealt, path);
      } else {
        assert dealt + [] == dealt && LinesAt(contents, dealt) + [] == LinesAt(contents, dealt);
      }
    }
  }

  /** The thread of bucket i starts with the lines of the files whose paths
      `split_files` has put there. */
  lemma ThreadsReadBuckets(dir: string, entries: seq<DirEntry>, contents: string -> Option<string>, n: nat, i: nat)
    requires n > 0 && i < |Initial(LogTally(), LinesAt(contents, Paths(dir, entries)), n).threads|
    ensures Initial(LogTally(), LinesAt(contents, Paths(dir, entries)), n).threads[i]
         == Thread(AllLines(LinesAt(contents, Bucket(Paths(dir, entries), n, i))), ZERO)
  {
    BucketOfLines(contents, Paths(dir, entries), n, i);
  }

  /** For every directory, every number of threads and every interleaving: the merged
      URL counts, referer counts and byte total are those of one pass over all buffers
      of all regular files in directory order. */
  lemma ParallelLogIsSequential(dir: string, entries: seq<DirEntry>, contents: string -> Option<string>, n: nat,
                                run: seq<State<Stats>>)
    requires n > 0 && Execution(LogTally(), LinesAt(contents, Paths(dir, entries)), n, run)
    requires run[|run| - 1].joined == |run[|run| - 1].threads|
    ensures run[|run| - 1].total == Sequential(LogTally(), AllLines(LinesAt(contents, Paths(dir, entries))))
  {
    LogTallyLawful();
    ParallelIsSequential(LogTally(), LinesAt(contents, Paths(dir, entries)), n, run);
  }

  method MergeUrls(final: ThreadStats, ts: ThreadStats)
    requires final.Valid() && ts.Valid() && final.Footprint() !! ts.Footprint()
    modifies final, final.urlMap, final.urlMap.entries
    ensures final.Valid() && fresh(final.Footprint() - old(final.Footprint()))
    ensures final.Contents()
         == Stats(Plus(old(final.Contents()).urls, old(ts.Contents()).urls), old(final.Contents()).refs,
                  old(final.Contents()).bytes + old(ts.Contents()).bytes)
  {
    hide Plus, ToCounts, Total, UniqueKeys, Doubled, MergeInto;
    MergeAdds(final.urlMap.Contents(), ts.urlMap.Contents());
    MergeTotal(final.urlMap.Contents(), ts.urlMap.Contents());
    final.totalBytes := final.totalBytes + ts.totalBytes;
    MergeMaps(final.urlMap, ts.urlMap);
  }

  method MergeRefs(final: ThreadStats, ts: ThreadStats)
    requires final.Valid() && ts.Valid() && final.Footprint() !! ts.Footprint()
    modifies final.refMap, final.refMap.entries
    ensures final.Valid() && fresh(final.Footprint() - old(final.Footprint()))
    ensures final.Contents()
         == Stats(old(final.Contents()).urls, Plus(old(final.Contents()).refs, old(ts.Contents()).refs),
                  old(final.Contents()).bytes)
  {
    hide Plus, ToCounts, Total, UniqueKeys, Doubled, MergeInto;
    MergeAdds(final.refMap.Contents(), ts.refMap.Contents());
    MergeMaps(final.refMap, ts.refMap);
  }

  /** The step of `main` that merges a finished thread into the final statistics. */
  method MergeThread(final: ThreadStats, ts: ThreadStats)
    requires final.Valid() && ts.Valid() && final.Footprint() !! ts.Footprint()
    modifies final.Footprint()
    ensures final.Valid() && fresh(final.Footprint() - old(final.Footprint()))
    ensures final.Contents() == Combine(old(final.Contents()), old(ts.Contents()))
  {
    hide Plus, ToCounts, Total, UniqueKeys, Doubled;
    MergeUrls(final, ts);
    MergeRefs(final, ts);
  }
}
