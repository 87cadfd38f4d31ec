/** `parse_log_line` of HW10-LogParser/src/main.c. A pointer into the line is the
    rest of the line from there on. */
module LogParse {
  import opened Basics

  /** `strchr`: the rest of the text from the first occurrence of c on. */
  function Strchr(s: string, c: char): (r: Option<string>)
    ensures r.Some? ==> 0 < |r.value| <= |s|
  {
    if s == "" then None
    else if s[0] == c then Some(s)
    else Strchr(s[1..], c)
  }

  /** It is the first occurrence, and there is none only if there is none. */
  lemma {:induction false} StrchrFirst(s: string, c: char)
    ensures match Strchr(s, c)
            case None => c !in s
            case Some(t) => t[0] == c && c !in s[..|s| - |t|] && t == s[|s| - |t|..]
  {
    if s != "" && s[0] != c {
      StrchrFirst(s[1..], c);
      assert s == [s[0]] + s[1..];
    }
  }

  predicate IsSpace(c: char) {
    c == ' ' || c == '\t' || c == '\n' || c == '\r' || c as int == 11 || c as int == 12
  }

  predicate IsDigit(c: char) {
    '0' <= c <= '9'
  }

  function SkipSpace(s: string): string {
    if s != "" && IsSpace(s[0]) then SkipSpace(s[1..]) else s
  }

  /** The digits at the front of s continue the number `acc`. */
  function Digits(acc: int, s: string): (int, string)
    decreases |s|
  {
    if s != "" && IsDigit(s[0]) then Digits(10 * acc + (s[0] as int - '0' as int), s[1..]) else (acc, s)
  }

  /** The conversion `%d` or `%ld`: white space, a sign, at least one digit. */
  function ScanInt(s: string): Option<(int, string)> {
    var t := SkipSpace(s);
    var negative := t != "" && t[0] == '-';
    var u := if t != "" && (t[0] == '-' || t[0] == '+') then t[1..] else t;
    if u != "" && IsDigit(u[0]) then
      var d := Digits(0, u);
      Some((if negative then -d.0 else d.0, d.1))
    else None
  }

  /** What a line adds to the statistics. */
  datatype Parsed = Ignored | Hit(url: string, size: int, ref: Option<string>)

  /** One trailing slash is dropped from a URL of more than one character. */
  function StripSlash(url: string): string {
    if |url| > 1 && url[|url| - 1] == '/' then url[..|url| - 1] else url
  }

  /** `parse_log_line`, cut at its early returns. */
  function Parse(line: string): Parsed {
    match Strchr(line, '"')
    case None => Ignored
    case Some(quote) => ParseRequest(quote[1..])
  }

  function ParseRequest(request: string): Parsed {
    if "GET " <= request then ParseUrl(request[4..]) else Ignored
  }

  function ParseUrl(ptr: string): Parsed {
    match Strchr(ptr, ' ')
    case None => Ignored
    case Some(urlEnd) => ParseTail(StripSlash(ptr[..|ptr| - |urlEnd|]), urlEnd)
  }

  function ParseTail(url: string, urlEnd: string): Parsed {
    match Strchr(urlEnd, '"')
    case None => Ignored
    case Some(closing) =>
      match Strchr(closing[1..], ' ')
      case None => Ignored
      case Some(sizePtr) => ParseNumbers(url, sizePtr)
  }

  function ParseNumbers(url: string, sizePtr: string): Parsed {
    match ScanInt(sizePtr)
    case None => Ignored
    case Some(status) =>
      match ScanInt(status.1)
      case None => Ignored
      case Some(size) => Hit(url, size.0, Referer(sizePtr))
  }

  /** The text between the next two quotes, unless it is empty. */
  function Referer(s: string): Option<string> {
    var start := Strchr(s, '"');
    if start.None? then None
    else
      var ref := start.value[1..];
      var end := Strchr(ref, '"');
      if end.None? || |end.value| == |ref| then None
      else Some(ref[..|ref| - |end.value|])
  }

  // --- Rendering a line and parsing it back ---

  function DigitChar(d: nat): (c: char)
    requires d < 10
    ensures IsDigit(c) && c as int - '0' as int == d
  {
    '0' + d as char
  }

  function Decimal(n: nat): (s: string)
    ensures s != "" && forall c :: c in s ==> IsDigit(c)
  {
    if n < 10 then [DigitChar(n)] else Decimal(n / 10) + [DigitChar(n % 10)]
  }

  /** A line of the combined log format with a GET request. */
  function Quote(s: string): (q: string)
    ensures |q| == |s| + 1 && q[0] == '"' && q[1..] == s
  {
    ['"'] + s
  }

  function Space(s: string): (q: string)
    ensures |q| == |s| + 1 && q[0] == ' ' && q[1..] == s
  {
    [' '] + s
  }

  /** A line of the combined log format with a GET request:
      prefix "GET url tail" status size "ref" rest. */
  function Render(prefix: string, url: string, tail: string, status: nat, size: string, ref: string, rest: string): string {
    prefix + Quote("GET " + (url + Space(tail + Quote(Space(Numbers(status, size, ref, rest))))))
  }

  function Numbers(status: nat, size: string, ref: string, rest: string): string {
    Decimal(status) + Space(size + Space(Quote(ref + Quote(rest))))
  }

  lemma {:induction false} StrchrSkips(a: string, b: string, c: char)
    requires c !in a
    ensures Strchr(a + b, c) == Strchr(b, c)
  {
    if a == "" {
      assert a + b == b;
    } else {
      assert (a + b)[1..] == a[1..] + b;
      StrchrSkips(a[1..], b, c);
    }
  }

  lemma StrchrAt(a: string, b: string, c: char)
    requires c !in a && b != "" && b[0] == c
    ensures Strchr(a + b, c) == Some(b)
  {
    StrchrSkips(a, b, c);
  }

  lemma {:induction false} DigitsConcat(acc: int, a: string, b: string)
    requires forall c :: c in a ==> IsDigit(c)
    ensures Digits(acc, a + b) == Digits(Digits(acc, a).0, b)
    decreases |a|
  {
    if a == "" {
      assert a + b == b;
    } else {
      assert (a + b)[1..] == a[1..] + b;
      DigitsConcat(10 * acc + (a[0] as int - '0' as int), a[1..], b);
    }
  }

  lemma {:induction false} DigitsOfDecimal(n: nat)
    ensures Digits(0, Decimal(n)).0 == n
  {
    if n >= 10 {
      DigitsOfDecimal(n / 10);
      DigitsConcat(0, Decimal(n / 10), [DigitChar(n % 10)]);
      assert [DigitChar(n % 10)][1..] == "";
    } else {
      assert [DigitChar(n)][1..] == "";
    }
  }

  /** A number is read back when it is followed by something else than a digit. */
  lemma ScanDecimal(n: nat, b: string)
    requires b == "" || !IsDigit(b[0])
    ensures ScanInt(Space(Decimal(n) + b)) == Some((n, b))
  {
    var d := Decimal(n);
    var s := Space(d + b);
    assert d[0] in d;
    assert (d + b)[0] == d[0];
    assert SkipSpace(s) == d + b;
    DigitsConcat(0, d, b);
    DigitsOfDecimal(n);
  }

  lemma RefererFound(before: string, ref: string, rest: string)
    requires '"' !in before && '"' !in ref
    ensures Referer(before + Quote(ref + Quote(rest))) == if ref == "" then None else Some(ref)
  {
    var end := Quote(rest);
    var start := Quote(ref + end);
    StrchrAt(before, start, '"');
    StrchrAt(ref, end, '"');
    CutPrefix(ref, end);
    assert Referer(before + start) == if |end| == |ref + end| then None else Some((ref + end)[..|ref + end| - |end|]);
  }

  lemma CutPrefix(a: string, b: string)
    ensures |a + b| == |a| + |b| && (a + b)[..|a + b| - |b|] == a
  {
  }

  lemma RequestFound(prefix: string, ptr: string)
    requires '"' !in prefix
    ensures Parse(prefix + Quote("GET " + ptr)) == ParseUrl(ptr)
  {
    StrchrAt(prefix, Quote("GET " + ptr), '"');
    assert ("GET " + ptr)[..4] == "GET " && ("GET " + ptr)[4..] == ptr;
  }

  lemma UrlFound(url: string, t: string)
    requires ' ' !in url
    ensures ParseUrl(url + Space(t)) == ParseTail(StripSlash(url), Space(t))
  {
    StrchrAt(url, Space(t), ' ');
    assert (url + Space(t))[..|url|] == url;
  }

  lemma TailFound(url: string, tail: string, numbers: string)
    requires '"' !in tail
    ensures ParseTail(url, Space(tail + Quote(Space(numbers)))) == ParseNumbers(url, Space(numbers))
  {
    var sizePtr := Space(numbers);
    var closing := Quote(sizePtr);
    SpaceConcat(tail, closing);
    StrchrAt(Space(tail), closing, '"');
    assert Strchr(sizePtr, ' ') == Some(sizePtr);
    assert Strchr(closing[1..], ' ') == Some(sizePtr);
  }

  lemma SpaceConcat(a: string, b: string)
    ensures Space(a + b) == Space(a) + b
    ensures '"' !in a ==> '"' !in Space(a)
  {
  }

  lemma NumbersFound(prefix: string, url: string, tail: string, status: nat, size: string, ref: string, rest: string)
    requires '"' !in prefix && ' ' !in url && '"' !in tail
    ensures Parse(Render(prefix, url, tail, status, size, ref, rest))
         == ParseNumbers(StripSlash(url), Space(Numbers(status, size, ref, rest)))
  {
    var numbers := Numbers(status, size, ref, rest);
    RequestFound(prefix, url + Space(tail + Quote(Space(numbers))));
    UrlFound(url, tail + Quote(Space(numbers)));
    TailFound(StripSlash(url), tail, numbers);
  }

  lemma SizeScanned(url: string, status: nat, size: nat, after: string)
    ensures ParseNumbers(url, Space(Decimal(status) + Space(Decimal(size) + Space(after))))
         == Hit(url, size, Referer(Space(Decimal(status) + Space(Decimal(size) + Space(after)))))
  {
    ScanDecimal(status, Space(Decimal(size) + Space(after)));
    ScanDecimal(size, Space(after));
  }

  lemma NumbersBefore(status: nat, size: nat, after: string) returns (before: string)
    ensures '"' !in before
    ensures Space(Decimal(status) + Space(Decimal(size) + Space(after))) == before + after
  {
    var a, b := Decimal(status), Decimal(size);
    before := Space(a + Space(b + [' ']));
    assert forall c :: c in before ==> c == ' ' || IsDigit(c);
    assert b + Space(after) == (b + [' ']) + after;
    assert a + Space((b + [' ']) + after) == (a + Space(b + [' '])) + after;
  }

  lemma ParseStripped(prefix: string, url: string, tail: string, status: nat, size: nat, ref: string, rest: string)
    requires '"' !in prefix && ' ' !in url && '"' !in tail && '"' !in ref
    ensures Parse(Render(prefix, url, tail, status, Decimal(size), ref, rest))
         == Hit(StripSlash(url), size, if ref == "" then None else Some(ref))
  {
    var quoted := Quote(ref + Quote(rest));
    NumbersFound(prefix, url, tail, status, Decimal(size), ref, rest);
    SizeScanned(StripSlash(url), status, size, quoted);
    var before := NumbersBefore(status, size, quoted);
    RefererFound(before, ref, rest);
  }

  /** Exactly one slash is dropped, and only from the end of a longer URL. */
  lemma SlashDropped(url: string)
    ensures url != "" ==> StripSlash(url + "/") == url
    ensures |url| <= 1 || url[|url| - 1] != '/' ==> StripSlash(url) == url
  {
    assert (url + "/")[..|url|] == url;
  }

  /** Round trip: a URL rendered with a slash behind it comes back without it, any other
      as it is, with the size, and the referer when it is not empty. */
  lemma ParseRender(prefix: string, url: string, tail: string, status: nat, size: nat, ref: string, rest: string)
    requires '"' !in prefix && ' ' !in url && '"' !in tail && '"' !in ref
    ensures var hit := Hit(url, size, if ref == "" then None else Some(ref));
            && (url != "" ==> Parse(Render(prefix, url + "/", tail, status, Decimal(size), ref, rest)) == hit)
            && (|url| <= 1 || url[|url| - 1] != '/' ==>
                  Parse(Render(prefix, url, tail, status, Decimal(size), ref, rest)) == hit)
  {
    hide Render, Parse, StripSlash;
    SlashDropped(url);
    ParseStripped(prefix, url, tail, status, size, ref, rest);
    ParseStripped(prefix, url + "/", tail, status, size, ref, rest);
  }

  // --- Which lines are hits, for all lines ---

  /** prefix "GET url tail"gap numbers: the parts end where their delimiter first occurs. */
  ghost predicate Shape(line: string, prefix: string, url: string, tail: string, gap: string, numbers: string) {
    && '"' !in prefix && ' ' !in url && '"' !in tail && ' ' !in gap
    && line == prefix + Quote("GET " + (url + Space(tail + Quote(gap + Space(numbers)))))
  }

  /** A line of this shape is parsed as its numbers tell ... */
  lemma ShapeParsed(line: string, prefix: string, url: string, tail: string, gap: string, numbers: string)
    requires Shape(line, prefix, url, tail, gap, numbers)
    ensures Parse(line) == ParseNumbers(StripSlash(url), Space(numbers))
  {
    var closing := Quote(gap + Space(numbers));
    RequestFound(prefix, url + Space(tail + closing));
    UrlFound(url, tail + closing);
    SpaceConcat(tail, closing);
    StrchrAt(Space(tail), closing, '"');
    StrchrAt(gap, Space(numbers), ' ');
  }

  lemma SplitAt(s: string, c: char) returns (before: string, after: string)
    requires Strchr(s, c).Some?
    ensures c !in before && Strchr(s, c).value == [c] + after && s == before + ([c] + after)
    ensures before == s[..|s| - |Strchr(s, c).value|]
  {
    StrchrFirst(s, c);
    var t := Strchr(s, c).value;
    before, after := s[..|s| - |t|], t[1..];
    assert t == [c] + after && s == before + t;
  }

  lemma RequestNeeded(line: string) returns (prefix: string, ptr: string)
    requires Parse(line) != Ignored
    ensures '"' !in prefix && line == prefix + Quote("GET " + ptr) && ParseUrl(ptr) != Ignored
  {
    hide ParseUrl, Strchr;
    var request;
    prefix, request := SplitAt(line, '"');
    assert (['"'] + request)[1..] == request;
    ptr := request[4..];
    assert request == "GET " + ptr;
  }

  lemma UrlNeeded(ptr: string) returns (url: string, behind: string)
    requires ParseUrl(ptr) != Ignored
    ensures ' ' !in url && ptr == url + Space(behind)
    ensures ParseTail(StripSlash(url), Space(behind)) != Ignored
  {
    hide ParseTail, StripSlash, Strchr;
    url, behind := SplitAt(ptr, ' ');
  }

  lemma TailNeeded(url: string, behind: string) returns (tail: string, gap: string, numbers: string)
    requires ParseTail(url, Space(behind)) != Ignored
    ensures '"' !in tail && ' ' !in gap && behind == tail + Quote(gap + Space(numbers))
  {
    hide ParseNumbers, Strchr;
    var before, closing;
    before, closing := SplitAt(Space(behind), '"');
    SpaceFirst(behind, before, ['"'] + closing);
    tail := before[1..];
    assert (['"'] + closing)[1..] == closing;
    gap, numbers := SplitAt(closing, ' ');
  }

  lemma SpaceFirst(s: string, a: string, b: string)
    requires Space(s) == a + b && b != "" && b[0] != ' '
    ensures a != "" && s == a[1..] + b && forall c :: c !in a ==> c !in a[1..]
  {
    assert a == "" ==> a + b == b;
    assert s == Space(s)[1..] == a[1..] + b;
  }

  /** ... and every other line is ignored. */
  lemma HitHasShape(line: string)
    returns (prefix: string, url: string, tail: string, gap: string, numbers: string)
    requires Parse(line) != Ignored
    ensures Shape(line, prefix, url, tail, gap, numbers)
  {
    hide Parse, ParseUrl, ParseTail, StripSlash, Quote, Space;
    var ptr, behind;
    prefix, ptr := RequestNeeded(line);
    url, behind := UrlNeeded(ptr);
    tail, gap, numbers := TailNeeded(StripSlash(url), behind);
  }

  /** A request that is not a GET is ignored. */
  lemma OtherRequestIgnored(prefix: string, request: string)
    requires '"' !in prefix && !("GET " <= request)
    ensures Parse(prefix + Quote(request)) == Ignored
  {
    StrchrAt(prefix, Quote(request), '"');
  }

  // --- The numbers, for all texts ---

  lemma SpaceCodes(c: char)
    ensures IsSpace(c) <==> c as int == 32 || 9 <= c as int <= 13
    ensures IsDigit(c) <==> 48 <= c as int <= 57
  {
  }

  predicate AllDigits(d: string) {
    forall i :: 0 <= i < |d| ==> IsDigit(d[i])
  }

  predicate AllSpace(b: string) {
    forall i :: 0 <= i < |b| ==> IsSpace(b[i])
  }

  /** The number a text of digits stands for. */
  function Value(d: string): nat
    requires AllDigits(d)
  {
    if d == "" then 0 else 10 * Value(d[..|d| - 1]) + (d[|d| - 1] as int - '0' as int)
  }

  lemma {:induction false} DigitsValue(d: string)
    requires AllDigits(d)
    ensures Digits(0, d) == (Value(d) as int, "")
  {
    if d != "" {
      var before, last := d[..|d| - 1], d[|d| - 1];
      DigitsValue(before);
      assert d == before + [last];
      assert forall c :: c in before ==> IsDigit(c);
      DigitsConcat(0, before, [last]);
      assert [last][1..] == "";
    }
  }

  lemma DigitsStop(d: string, rest: string)
    requires AllDigits(d) && (rest == "" || !IsDigit(rest[0]))
    ensures Digits(0, d + rest) == (Value(d) as int, rest)
  {
    DigitsValue(d);
    assert forall c :: c in d ==> IsDigit(c);
    DigitsConcat(0, d, rest);
  }

  lemma {:induction false} SpacesSkipped(blanks: string, s: string)
    requires AllSpace(blanks) && (s == "" || !IsSpace(s[0]))
    ensures SkipSpace(blanks + s) == s
  {
    if blanks == "" {
      assert blanks + s == s;
    } else {
      assert (blanks + s)[1..] == blanks[1..] + s;
      SpacesSkipped(blanks[1..], s);
    }
  }

  /** White space, a sign and digits are read as the number they stand for, up to the
      first character that is no digit ... */
  lemma ScanReads(blanks: string, sign: string, digits: string, rest: string)
    requires AllSpace(blanks) && sign in {"", "+", "-"} && AllDigits(digits) && digits != ""
    requires rest == "" || !IsDigit(rest[0])
    ensures ScanInt(blanks + (sign + (digits + rest)))
         == Some((if sign == "-" then -(Value(digits) as int) else Value(digits), rest))
  {
    hide Digits, Value;
    var u := digits + rest;
    var t := sign + u;
    assert u[0] == digits[0] && IsDigit(u[0]);
    DigitsStop(digits, rest);
    SpacesSkipped(blanks, t);
    if sign == "" {
      assert t == u;
    } else {
      assert t[0] == sign[0] && t[1..] == u;
    }
  }

  lemma {:induction false} DigitsRest(acc: int, s: string) returns (digits: string, rest: string)
    ensures s == digits + rest && AllDigits(digits) && (rest == "" || !IsDigit(rest[0]))
    ensures s != "" && IsDigit(s[0]) ==> digits != ""
    decreases |s|
  {
    if s != "" && IsDigit(s[0]) {
      digits, rest := DigitsRest(acc, s[1..]);
      assert s == [s[0]] + s[1..] == ([s[0]] + digits) + rest;
      digits := [s[0]] + digits;
    } else {
      digits, rest := "", s;
    }
  }

  lemma {:induction false} SpaceRest(s: string) returns (blanks: string)
    ensures AllSpace(blanks) && s == blanks + SkipSpace(s)
  {
    if s != "" && IsSpace(s[0]) {
      blanks := SpaceRest(s[1..]);
      assert s == [s[0]] + s[1..] == ([s[0]] + blanks) + SkipSpace(s);
      blanks := [s[0]] + blanks;
    } else {
      blanks := "";
    }
  }

  /** ... and whatever is read has that form. */
  lemma ScanForm(s: string) returns (blanks: string, sign: string, digits: string, rest: string)
    requires ScanInt(s).Some?
    ensures AllSpace(blanks) && sign in {"", "+", "-"} && AllDigits(digits) && digits != ""
    ensures (rest == "" || !IsDigit(rest[0])) && s == blanks + (sign + (digits + rest))
  {
    hide Digits;
    blanks := SpaceRest(s);
    var t := SkipSpace(s);
    if t[0] == '-' || t[0] == '+' {
      sign := [t[0]];
      digits, rest := DigitsRest(0, t[1..]);
      assert t == sign + t[1..];
    } else {
      sign := "";
      digits, rest := DigitsRest(0, t);
      assert t == sign + t;
    }
  }

  lemma SignedScan(sign: string, size: nat, behind: string)
    requires sign in {"+", "-"} && (behind == "" || !IsDigit(behind[0]))
    ensures ScanInt(Space((sign + Decimal(size)) + behind)) == Some((if sign == "-" then -(size as int) else size, behind))
  {
    hide Digits, Decimal, ScanInt;
    var d := Decimal(size);
    assert Space((sign + d) + behind) == [' '] + (sign + (d + behind));
    assert AllDigits(d) by { assert forall i :: 0 <= i < |d| ==> d[i] in d; }
    DigitsValue(d);
    DigitsOfDecimal(size);
    ScanReads([' '], sign, d, behind);
  }

  /** A sign in front of the size is read with it. */
  lemma SignedSize(prefix: string, url: string, tail: string, status: nat, sign: string, size: nat, ref: string, rest: string)
    requires '"' !in prefix && ' ' !in url && '"' !in tail && sign in {"+", "-"}
    ensures var p := Parse(Render(prefix, url, tail, status, sign + Decimal(size), ref, rest));
            p.Hit? && p.size == if sign == "-" then -(size as int) else size
  {
    hide Parse, Render, ScanInt, Decimal, Referer;
    var text := sign + Decimal(size);
    var behind := Space(Quote(ref + Quote(rest)));
    NumbersFound(prefix, url, tail, status, text, ref, rest);
    ScanDecimal(status, Space(text + behind));
    SignedScan(sign, size, behind);
  }

  // --- The referer, for all texts ---

  /** Without two quotes there is no referer; between the first two it is, unless empty. */
  lemma RefererOf(a: string, b: string, c: string)
    requires '"' !in a && '"' !in b
    ensures Referer(a) == None && Referer(a + Quote(b)) == None
    ensures Referer(a + Quote(b + Quote(c))) == if b == "" then None else Some(b)
  {
    StrchrFirst(a, '"');
    StrchrAt(a, Quote(b), '"');
    StrchrFirst(b, '"');
    RefererFound(a, b, c);
  }

  /** A line of the common log format, which ends behind the numbers, counts without a
      referer. */
  lemma CommonFormat(prefix: string, url: string, tail: string, status: nat, size: nat, after: string)
    requires '"' !in prefix && ' ' !in url && '"' !in tail && '"' !in after
    requires |url| <= 1 || url[|url| - 1] != '/'
    requires after == "" || !IsDigit(after[0])
    ensures Parse(prefix + Quote("GET " + (url + Space(tail + Quote("" + Space(Decimal(status) + Space(Decimal(size) + after)))))))
         == Hit(url, size, None)
  {
    var field := Space(Decimal(size) + after);
    var numbers := Decimal(status) + field;
    ShapeParsed(prefix + Quote("GET " + (url + Space(tail + Quote("" + Space(numbers))))), prefix, url, tail, "", numbers);
    SlashDropped(url);
    ScanDecimal(status, field);
    ScanDecimal(size, after);
    assert '"' !in Decimal(status) && '"' !in Decimal(size);
    assert '"' !in Space(numbers);
    RefererOf(Space(numbers), "", "");
  }

  /** After white space and an optional sign there is a digit. */
  predicate StartsNumber(s: string) {
    var t := SkipSpace(s);
    var u := if t != "" && (t[0] == '-' || t[0] == '+') then t[1..] else t;
    u != "" && IsDigit(u[0])
  }

  lemma {:induction false} SkipSpaceConcat(a: string, b: string)
    ensures SkipSpace(a + b) == if SkipSpace(a) == "" then SkipSpace(b) else SkipSpace(a) + b
  {
    if a == "" {
      assert a + b == b;
    } else {
      assert (a + b)[1..] == a[1..] + b;
      if IsSpace(a[0]) {
        SkipSpaceConcat(a[1..], b);
      }
    }
  }

  /** A field followed by a blank and a quote starts a number exactly when its own text does. */
  lemma FieldStartsNumber(size: string, after: string)
    ensures StartsNumber(Space(size + Space(Quote(after)))) <==> StartsNumber(size)
  {
    var behind := Space(Quote(after));
    var t := SkipSpace(size);
    SkipSpaceConcat(size, behind);
    assert SkipSpace(behind) == Quote(after);
    assert SkipSpace(Space(size + behind)) == SkipSpace(size + behind);
    if t != "" {
      assert (t + behind)[0] == t[0] && (t + behind)[1..] == t[1..] + behind;
      if t[1..] == "" {
        assert t[1..] + behind == behind;
      } else {
        assert (t[1..] + behind)[0] == t[1..][0];
      }
    }
  }

  /** Exactly when a GET line is ignored, for any text in the place of the size: when that
      text has no digit behind its optional sign. */
  lemma IgnoredExactly(prefix: string, url: string, tail: string, status: nat, size: string, ref: string, rest: string)
    requires '"' !in prefix && ' ' !in url && '"' !in tail
    ensures Parse(Render(prefix, url, tail, status, size, ref, rest)) == Ignored <==> !StartsNumber(size)
  {
    var field := Space(size + Space(Quote(ref + Quote(rest))));
    NumbersFound(prefix, url, tail, status, size, ref, rest);
    ScanDecimal(status, field);
    FieldStartsNumber(size, ref + Quote(rest));
    NumbersIgnored(StripSlash(url), status, field);
  }

  lemma NumbersIgnored(url: string, status: nat, field: string)
    requires ScanInt(Space(Decimal(status) + field)) == Some((status as int, field))
    ensures ParseNumbers(url, Space(Decimal(status) + field)) == Ignored <==> !StartsNumber(field)
  {
  }

  /** A response without a size ("-") is not counted at all, not even its URL. */
  lemma DashIgnored(prefix: string, url: string, tail: string, status: nat, ref: string, rest: string)
    requires '"' !in prefix && ' ' !in url && '"' !in tail
    ensures Parse(Render(prefix, url, tail, status, "-", ref, rest)) == Ignored
  {
    IgnoredExactly(prefix, url, tail, status, "-", ref, rest);
  }

  lemma ThreeParts(a: string, b: string, c: string)
    ensures (a + b) + c == a + (b + c)
  {
  }

  lemma QuoteMore(s: string, more: string)
    ensures Quote(s) + more == Quote(s + more)
  {
  }

  lemma SpaceMore(s: string, more: string)
    ensures Space(s) + more == Space(s + more)
  {
  }

  lemma NumbersMore(status: nat, size: string, ref: string, rest: string, more: string)
    ensures Numbers(status, size, ref, rest) + more == Numbers(status, size, ref, rest + more)
  {
    hide Quote, Space, Decimal;
    QuoteMore(rest, more);
    ThreeParts(ref, Quote(rest), more);
    QuoteMore(ref + Quote(rest), more);
    SpaceMore(Quote(ref + Quote(rest)), more);
    ThreeParts(size, Space(Quote(ref + Quote(rest))), more);
    SpaceMore(size + Space(Quote(ref + Quote(rest))), more);
    ThreeParts(Decimal(status), Space(size + Space(Quote(ref + Quote(rest)))), more);
  }

  /** What follows a line goes to its last part. */
  lemma RenderMore(prefix: string, url: string, tail: string, status: nat, size: string, ref: string, rest: string, more: string)
    ensures Render(prefix, url, tail, status, size, ref, rest) + more
         == Render(prefix, url, tail, status, size, ref, rest + more)
  {
    hide Quote, Space, Numbers;
    var numbers := Numbers(status, size, ref, rest);
    var request := tail + Quote(Space(numbers));
    NumbersMore(status, size, ref, rest, more);
    SpaceMore(numbers, more);
    QuoteMore(Space(numbers), more);
    ThreeParts(tail, Quote(Space(numbers)), more);
    SpaceMore(request, more);
    ThreeParts(url, Space(request), more);
    ThreeParts("GET ", url + Space(request), more);
    QuoteMore("GET " + (url + Space(request)), more);
    ThreeParts(prefix, Quote("GET " + (url + Space(request))), more);
  }
}
