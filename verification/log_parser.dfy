/** `LOG_PATTERN` and `load_log` (auto_scaling.py): the access-log line
    grammar
        host ident ident [time] "method path protocol" status bytes
    as a hand-written recogniser, and the loading step that keeps matching
    lines, reads their timestamps and orders the records by time.

    Every group of the pattern is a greedy run of one character class
    followed by a literal that the class excludes, so the regular
    expression engine never backtracks into a second match: recognising a
    line is scanning maximal runs in order. */
module LogParser {
  import opened Basics
  import opened CivilTime

  // ---------------------------------------------------------------------
  // Character classes of the pattern
  // ---------------------------------------------------------------------

  /** Python's whitespace (`\s` for str patterns, `str.isspace`). */
  predicate IsSpace(c: char) {
    || c == ' ' || c == '\t' || c == '\n' || c == '\r' || c == '\U{b}' || c == '\U{c}'
    || ('\U{1c}' <= c <= '\U{1f}') || c == '\U{85}' || c == '\U{a0}' || c == '\U{1680}'
    || ('\U{2000}' <= c <= '\U{200a}') || c == '\U{2028}' || c == '\U{2029}'
    || c == '\U{202f}' || c == '\U{205f}' || c == '\U{3000}'
  }

  /** `\S`, `[^\]]` and `[^"]`. */
  datatype CharClass = NonSpace | NotBracket | NotQuote

  predicate InClass(k: CharClass, c: char) {
    match k
    case NonSpace => !IsSpace(c)
    case NotBracket => c != ']'
    case NotQuote => c != '"'
  }

  predicate AllIn(k: CharClass, t: string) {
    forall i :: 0 <= i < |t| ==> InClass(k, t[i])
  }

  /** The end of the longest run of class-k characters starting at i. */
  function RunEnd(s: string, i: nat, k: CharClass): (j: nat)
    requires i <= |s|
    ensures i <= j <= |s|
    ensures AllIn(k, s[i..j])
    ensures j == |s| || !InClass(k, s[j])
    decreases |s| - i
  {
    if i < |s| && InClass(k, s[i]) then RunEnd(s, i + 1, k) else i
  }

  /** A run that ends where the class stops is the longest run. */
  lemma {:induction false} RunEndAt(s: string, i: nat, j: nat, k: CharClass)
    requires i <= j <= |s|
    requires AllIn(k, s[i..j])
    requires j == |s| || !InClass(k, s[j])
    ensures RunEnd(s, i, k) == j
    decreases j - i
  {
    if i < j {
      assert InClass(k, s[i..j][0]);
      assert s[i + 1..j] == s[i..j][1..];
      RunEndAt(s, i + 1, j, k);
    }
  }

  // ---------------------------------------------------------------------
  // Scanning a sequence of (class, delimiter) fields
  // ---------------------------------------------------------------------

  /** One field of the pattern: a non-empty run of a class, then a literal. */
  datatype Field = Field(kind: CharClass, delim: string)

  /** The text a list of tokens makes when each is followed by its
      field's delimiter. */
  function Layout(toks: seq<string>, fmt: seq<Field>): string
    requires |toks| == |fmt|
  {
    if |fmt| == 0 then [] else toks[0] + fmt[0].delim + Layout(toks[1..], fmt[1..])
  }

  /** Tokens a field list can produce: non-empty runs of their classes. */
  predicate TokensFit(toks: seq<string>, fmt: seq<Field>) {
    && |toks| == |fmt|
    && forall i :: 0 <= i < |fmt| ==> |toks[i]| > 0 && AllIn(fmt[i].kind, toks[i])
  }

  /** Each delimiter starts with a character its field's class excludes, so
      a greedy run stops exactly before it. */
  predicate GoodFormat(fmt: seq<Field>) {
    forall i :: 0 <= i < |fmt| ==> |fmt[i].delim| > 0 && !InClass(fmt[i].kind, fmt[i].delim[0])
  }

  lemma TokensFitCons(t: string, ts: seq<string>, fmt: seq<Field>)
    requires |fmt| > 0 && |t| > 0 && AllIn(fmt[0].kind, t) && TokensFit(ts, fmt[1..])
    ensures TokensFit([t] + ts, fmt)
  {
    forall k | 0 <= k < |fmt|
      ensures |([t] + ts)[k]| > 0 && AllIn(fmt[k].kind, ([t] + ts)[k])
    {
      if k > 0 {
        assert ([t] + ts)[k] == ts[k - 1] && fmt[k] == fmt[1..][k - 1];
      }
    }
  }

  lemma FitTail(toks: seq<string>, fmt: seq<Field>)
    requires |fmt| > 0 && TokensFit(toks, fmt) && GoodFormat(fmt)
    ensures TokensFit(toks[1..], fmt[1..]) && GoodFormat(fmt[1..])
  {
    forall k | 0 <= k < |fmt| - 1
      ensures |toks[1..][k]| > 0 && AllIn(fmt[1..][k].kind, toks[1..][k])
      ensures |fmt[1..][k].delim| > 0 && !InClass(fmt[1..][k].kind, fmt[1..][k].delim[0])
    {
      assert toks[1..][k] == toks[k + 1] && fmt[1..][k] == fmt[k + 1];
    }
  }

  /** The longest run of a field's class at the start of s, provided it is
      not empty and the field's delimiter follows it. */
  function ScanField(s: string, f: Field): (j: Option<nat>)
    ensures j.Some? ==> 0 < j.value && j.value + |f.delim| <= |s|
  {
    var j := RunEnd(s, 0, f.kind);
    if j == 0 || j + |f.delim| > |s| || s[j..j + |f.delim|] != f.delim then None
    else Some(j)
  }

  /** The outcome of scanning fields: the tokens found and the text after
      the last delimiter. */
  datatype Scanned = NoMatch | Found(tokens: seq<string>, rest: string)

  /** Matches the fields in order at the start of s, each token greedily. */
  function Scan(s: string, fmt: seq<Field>): (r: Scanned)
    ensures r.Found? ==> |r.tokens| == |fmt|
    decreases |fmt|
  {
    if |fmt| == 0 then Found([], s)
    else
      match ScanField(s, fmt[0])
      case None => NoMatch
      case Some(j) =>
        var r := Scan(s[j + |fmt[0].delim|..], fmt[1..]);
        if r.NoMatch? then NoMatch else Found([s[..j]] + r.tokens, r.rest)
  }

  /** Scan, one field at a time. */
  lemma ScanUnfold(s: string, fmt: seq<Field>)
    requires |fmt| > 0 && Scan(s, fmt).Found?
    ensures ScanField(s, fmt[0]).Some?
    ensures var j := ScanField(s, fmt[0]).value; var r := Scan(s[j + |fmt[0].delim|..], fmt[1..]);
      r.Found? && Scan(s, fmt) == Found([s[..j]] + r.tokens, r.rest)
  {
  }

  /** A field's token and delimiter in front of the layout of the others
      make the layout of all of them. */
  lemma ScanSoundStep(s: string, fmt: seq<Field>, j: nat, ts: seq<string>, rest: string)
    requires |fmt| > 0 && ScanField(s, fmt[0]) == Some(j)
    requires TokensFit(ts, fmt[1..]) && s[j + |fmt[0].delim|..] == Layout(ts, fmt[1..]) + rest
    ensures TokensFit([s[..j]] + ts, fmt)
    ensures s == Layout([s[..j]] + ts, fmt) + rest
  {
    var d := fmt[0].delim;
    var t := s[..j];
    assert s == t + d + s[j + |d|..] by {
      assert s[j..j + |d|] == d;
      assert s == s[..j] + s[j..j + |d|] + s[j + |d|..];
    }
    TokensFitCons(t, ts, fmt);
    assert ([t] + ts)[1..] == ts;
  }

  /** What Scan finds are tokens of the fields, laid out at the start of
      the text. */
  lemma {:induction false} ScanSound(s: string, fmt: seq<Field>)
    requires Scan(s, fmt).Found?
    ensures TokensFit(Scan(s, fmt).tokens, fmt)
    ensures s == Layout(Scan(s, fmt).tokens, fmt) + Scan(s, fmt).rest
    decreases |fmt|
  {
    if |fmt| > 0 {
      ScanUnfold(s, fmt);
      var j := ScanField(s, fmt[0]).value;
      var tail := s[j + |fmt[0].delim|..];
      ScanSound(tail, fmt[1..]);
      ScanSoundStep(s, fmt, j, Scan(tail, fmt[1..]).tokens, Scan(tail, fmt[1..]).rest);
    }
  }

  /** A run of a field's class followed by the field's delimiter is
      scanned as that run, whatever comes after. */
  lemma ScanFieldOn(t: string, f: Field, x: string)
    requires |t| > 0 && AllIn(f.kind, t)
    requires |f.delim| > 0 && !InClass(f.kind, f.delim[0])
    ensures ScanField(t + f.delim + x, f) == Some(|t|)
  {
    var s := t + f.delim + x;
    assert s[..|t|] == t;
    assert s[|t|..|t| + |f.delim|] == f.delim;
    assert s[|t|] == f.delim[0];
    RunEndAt(s, 0, |t|, f.kind);
  }

  /** Scan of a text whose first field is already found. */
  lemma ScanFoldOn(t: string, x: string, fmt: seq<Field>, ts: seq<string>, rest: string)
    requires |fmt| > 0 && ScanField(t + fmt[0].delim + x, fmt[0]) == Some(|t|)
    requires Scan(x, fmt[1..]) == Found(ts, rest)
    ensures Scan(t + fmt[0].delim + x, fmt) == Found([t] + ts, rest)
  {
    var s := t + fmt[0].delim + x;
    assert s[..|t|] == t;
    assert s[|t| + |fmt[0].delim|..] == x;
  }

  /** A layout is its first token and delimiter before the others. */
  lemma LayoutCons(toks: seq<string>, fmt: seq<Field>, rest: string)
    requires |fmt| > 0 && |toks| == |fmt|
    ensures Layout(toks, fmt) + rest == toks[0] + fmt[0].delim + (Layout(toks[1..], fmt[1..]) + rest)
  {
  }

  /** The first field of a layout is scanned once the others are. */
  lemma ScanLayoutStep(toks: seq<string>, fmt: seq<Field>, rest: string)
    requires |fmt| > 0 && GoodFormat(fmt) && TokensFit(toks, fmt)
    requires Scan(Layout(toks[1..], fmt[1..]) + rest, fmt[1..]) == Found(toks[1..], rest)
    ensures Scan(Layout(toks, fmt) + rest, fmt) == Found(toks, rest)
  {
    var x := Layout(toks[1..], fmt[1..]) + rest;
    LayoutCons(toks, fmt, rest);
    ScanFieldOn(toks[0], fmt[0], x);
    ScanFoldOn(toks[0], x, fmt, toks[1..], rest);
    assert [toks[0]] + toks[1..] == toks;
  }

  /** Scanning text laid out from fitting tokens finds those tokens, and
      leaves what follows the layout. */
  lemma {:induction false} ScanLayout(toks: seq<string>, fmt: seq<Field>, rest: string)
    requires GoodFormat(fmt) && TokensFit(toks, fmt)
    ensures Scan(Layout(toks, fmt) + rest, fmt) == Found(toks, rest)
    decreases |fmt|
  {
    if |fmt| > 0 {
      FitTail(toks, fmt);
      ScanLayout(toks[1..], fmt[1..], rest);
      ScanLayoutStep(toks, fmt, rest);
    } else {
      assert toks == [];
    }
  }

  // ---------------------------------------------------------------------
  // The access-log line
  // ---------------------------------------------------------------------

  /** The eight delimited fields of the pattern; `bytes` comes after them. */
  const LineFormat: seq<Field> := [
    Field(NonSpace, " "),      // host
    Field(NonSpace, " "),      // ident
    Field(NonSpace, " ["),     // ident
    Field(NotBracket, "] \""), // time
    Field(NonSpace, " "),      // method
    Field(NonSpace, " "),      // path
    Field(NotQuote, "\" "),    // protocol
    Field(NonSpace, " ")       // status
  ]

  lemma LineFormatIsGood()
    ensures GoodFormat(LineFormat)
  {
  }

  /** The texts a match spans: the eight delimited groups (idents
      included) and the `bytes` token. */
  datatype RawLine = RawLine(groups: seq<string>, bytes: string)

  // Positions of the named groups among the delimited ones.
  const HostGroup := 0
  const TimeGroup := 3
  const MethodGroup := 4
  const PathGroup := 5
  const ProtocolGroup := 6
  const StatusGroup := 7

  /** The line text a raw match spans. */
  function RawLayout(raw: RawLine): string
    requires |raw.groups| == |LineFormat|
  {
    Layout(raw.groups, LineFormat) + raw.bytes
  }

  /** `(?P<status>\d{3})` over ASCII: three characters '0'..'9'. On a str
      pattern Python's `\d` also matches the other Unicode decimal digits;
      those are outside this model. */
  predicate IsStatusToken(t: string) {
    |t| == 3 && AllDigits(t)
  }

  /** The group texts the pattern can capture. */
  predicate WellFormedRaw(raw: RawLine) {
    && TokensFit(raw.groups, LineFormat)
    && IsStatusToken(raw.groups[StatusGroup])
    && |raw.bytes| > 0 && AllIn(NonSpace, raw.bytes)
  }

  /** A matched line after `load_log`'s coercions: `status` as an integer,
      `bytes` as an integer or 0 when it is not all digits; the time text is
      kept for the later conversion. */
  datatype Entry = Entry(host: string, time: string, httpMethod: string, path: string,
                         protocol: string, status: nat, bytes: nat)

  /** `int(b) if b.isdigit() else 0` */
  function BytesValue(t: string): nat {
    if |t| > 0 && AllDigits(t) then DecimalValue(t) else 0
  }

  function EntryOf(raw: RawLine): Entry
    requires WellFormedRaw(raw)
  {
    var g := raw.groups;
    Entry(g[HostGroup], g[TimeGroup], g[MethodGroup], g[PathGroup], g[ProtocolGroup],
          DecimalValue(g[StatusGroup]), BytesValue(raw.bytes))
  }

  /** `LOG_PATTERN.match(line)`: the raw groups, or None when the line's
      prefix does not have the pattern's shape. Text after `bytes` is
      allowed, since the match is anchored only at the start. */
  function Recognise(line: string): (r: Option<RawLine>)
    ensures r.Some? ==> WellFormedRaw(r.value)
  {
    var sc := Scan(line, LineFormat);
    if sc.NoMatch? then None
    else
      ScanSound(line, LineFormat);
      var e := RunEnd(sc.rest, 0, NonSpace);
      if !IsStatusToken(sc.tokens[StatusGroup]) || e == 0 then None
      else Some(RawLine(sc.tokens, sc.rest[..e]))
  }

  /** Recognise, unfolded once. */
  lemma RecogniseUnfold(line: string)
    requires Recognise(line).Some?
    ensures Scan(line, LineFormat).Found?
    ensures var after := Scan(line, LineFormat).rest;
      Recognise(line).value == RawLine(Scan(line, LineFormat).tokens, after[..RunEnd(after, 0, NonSpace)])
  {
  }

  /** A text is its leading non-space run followed by text that starts
      with whitespace, if it does not end there. */
  lemma RunSplit(x: string)
    ensures var e := RunEnd(x, 0, NonSpace);
      x == x[..e] + x[e..] && (x[e..] == [] || IsSpace(x[e..][0]))
  {
  }

  /** A line laid out from recognised groups, followed by text that could
      not have extended `bytes`, is what the recogniser saw. */
  lemma RecogniseSound(line: string) returns (rest: string)
    requires Recognise(line).Some?
    ensures line == RawLayout(Recognise(line).value) + rest
    ensures rest == [] || IsSpace(rest[0])
  {
    RecogniseUnfold(line);
    ScanSound(line, LineFormat);
    var after := Scan(line, LineFormat).rest;
    RunSplit(after);
    rest := after[RunEnd(after, 0, NonSpace)..];
  }

  /** Every line laid out from well-formed groups, whatever non-`bytes` text
      follows, is recognised with exactly those groups. */
  lemma RecogniseLayout(raw: RawLine, rest: string)
    requires WellFormedRaw(raw)
    requires rest == [] || IsSpace(rest[0])
    ensures Recognise(RawLayout(raw) + rest) == Some(raw)
  {
    var after := raw.bytes + rest;
    assert RawLayout(raw) + rest == Layout(raw.groups, LineFormat) + after;
    LineFormatIsGood();
    ScanLayout(raw.groups, LineFormat, after);
    assert after[..|raw.bytes|] == raw.bytes;
    RunEndAt(after, 0, |raw.bytes|, NonSpace);
  }

  /** One line through `load_log`'s loop body: the coerced record, or None
      for a line the pattern skips. */
  function MatchLine(line: string): (r: Option<Entry>)
    ensures r.Some? ==> r.value.status < 1000
  {
    match Recognise(line)
    case None => None
    case Some(raw) =>
      DecimalValueBound(raw.groups[StatusGroup]);
      Some(EntryOf(raw))
  }

  /** A line that matches starts with a well-formed layout that is not
      followed by more `bytes` characters, and its entry is read off those
      groups. */
  lemma MatchLineSound(line: string) returns (raw: RawLine, rest: string)
    requires MatchLine(line).Some?
    ensures WellFormedRaw(raw) && line == RawLayout(raw) + rest
    ensures rest == [] || IsSpace(rest[0])
    ensures MatchLine(line) == Some(EntryOf(raw))
  {
    raw := Recognise(line).value;
    rest := RecogniseSound(line);
  }

  /** Conversely, every such line matches, with the entry of its groups. */
  lemma MatchLineComplete(raw: RawLine, rest: string)
    requires WellFormedRaw(raw)
    requires rest == [] || IsSpace(rest[0])
    ensures MatchLine(RawLayout(raw) + rest) == Some(EntryOf(raw))
  {
    RecogniseLayout(raw, rest);
  }

  /** A line whose `bytes` token is not all digits (NASA logs write `-`
      for no body) still matches, with a byte count of 0; a digit token is
      read as its decimal value. */
  lemma MatchLineBytes(raw: RawLine, rest: string)
    requires WellFormedRaw(raw)
    requires rest == [] || IsSpace(rest[0])
    ensures var r := MatchLine(RawLayout(raw) + rest);
      && r.Some?
      && (AllDigits(raw.bytes) ==> r.value.bytes == DecimalValue(raw.bytes))
      && (!AllDigits(raw.bytes) ==> r.value.bytes == 0)
  {
    MatchLineComplete(raw, rest);
  }

  // ---------------------------------------------------------------------
  // Rendering an entry back into a log line
  // ---------------------------------------------------------------------

  /** Field values a log line can carry: space-free host, method and path,
      a time without `]`, a protocol without `"`, a three-digit status. */
  predicate RenderableEntry(e: Entry) {
    && |e.host| > 0 && AllIn(NonSpace, e.host)
    && |e.time| > 0 && AllIn(NotBracket, e.time)
    && |e.httpMethod| > 0 && AllIn(NonSpace, e.httpMethod)
    && |e.path| > 0 && AllIn(NonSpace, e.path)
    && |e.protocol| > 0 && AllIn(NotQuote, e.protocol)
    && e.status < 1000
  }

  /** The groups of an entry's log line, with `-` for both idents. */
  function RawOf(e: Entry): RawLine
    requires e.status < 1000
  {
    RawLine([e.host, "-", "-", e.time, e.httpMethod, e.path, e.protocol, PaddedDecimal(e.status, 3)],
            DecimalString(e.bytes))
  }

  /** The log line for an entry. */
  function RenderEntry(e: Entry): string
    requires e.status < 1000
  {
    RawLayout(RawOf(e))
  }

  /** Rendering an entry and parsing the line gives the entry back, whatever
      whitespace-led text trails the line. */
  lemma EntryRoundTrip(e: Entry, rest: string)
    requires RenderableEntry(e)
    requires rest == [] || IsSpace(rest[0])
    ensures MatchLine(RenderEntry(e) + rest) == Some(e)
  {
    var raw := RawOf(e);
    DigitsAreNotSpace(raw.groups[StatusGroup]);
    DigitsAreNotSpace(raw.bytes);
    assert TokensFit(raw.groups, LineFormat);
    MatchLineComplete(raw, rest);
    PaddedRoundTrip(e.status, 3);
    DecimalRoundTrip(e.bytes);
  }

  lemma DigitsAreNotSpace(t: string)
    requires AllDigits(t)
    ensures AllIn(NonSpace, t)
  {
  }

  // ---------------------------------------------------------------------
  // load_log
  // ---------------------------------------------------------------------

  /** The loop of `load_log`: matching lines in order, the others skipped. */
  function MatchAll(lines: seq<string>): (es: seq<Entry>)
    ensures |es| <= |lines|
    ensures forall i :: 0 <= i < |lines| && MatchLine(lines[i]).Some? ==> MatchLine(lines[i]).value in es
    ensures forall e :: e in es ==> exists i :: 0 <= i < |lines| && MatchLine(lines[i]) == Some(e)
  {
    FilterMap(lines, MatchLine)
  }

  /** Matching distributes over concatenated inputs: a line's fate does not
      depend on its neighbours, and the order of kept lines is kept. */
  lemma MatchAllAppend(a: seq<string>, b: seq<string>)
    ensures MatchAll(a + b) == MatchAll(a) + MatchAll(b)
  {
    FilterMapAppend(a, b, MatchLine);
  }

  /** A line the pattern rejects changes nothing: the entries of the other
      lines are exactly those of the input without it. */
  lemma SkippedLineIsDropped(a: seq<string>, bad: string, b: seq<string>)
    requires MatchLine(bad).None?
    ensures MatchAll(a + [bad] + b) == MatchAll(a + b)
  {
    FilterMapSkips(a, bad, b, MatchLine);
  }

  /** A parsed access-log record with its timestamp converted. */
  datatype Record = Record(host: string, stamp: Stamp, httpMethod: string, path: string,
                           protocol: string, status: nat, bytes: nat)

  datatype LoadError =
    | NoRows                    // no line matched: the frame has no `time` column
    | BadTimestamp(time: string) // `pd.to_datetime` rejects a time field
    | MixedOffsets              // the times carry different UTC offsets

  /** The record of an entry whose time field parses. */
  function RecordOf(e: Entry): Record
    requires ParseCivil(e.time).Some?
  {
    Record(e.host, ToStamp(ParseCivil(e.time).value), e.httpMethod, e.path, e.protocol,
           e.status, e.bytes)
  }

  /** `pd.to_datetime(df["time"], format=...)` over all entries: one bad
      time field fails the whole conversion. */
  function ToRecords(entries: seq<Entry>): (r: Result<seq<Record>, LoadError>)
    ensures r.Success? <==> forall i :: 0 <= i < |entries| ==> ParseCivil(entries[i].time).Some?
    ensures r.Success? ==> |r.value| == |entries|
    ensures r.Success? ==> forall i :: 0 <= i < |entries| ==> r.value[i] == RecordOf(entries[i])
    ensures r.Failure? ==> r.error.BadTimestamp?
  {
    if |entries| == 0 then Success([])
    else
      var e := entries[0];
      match ParseCivil(e.time)
      case None => Failure(BadTimestamp(e.time))
      case Some(c) =>
        match ToRecords(entries[1..])
        case Failure(err) => Failure(err)
        case Success(rest) => Success([RecordOf(e)] + rest)
  }

  predicate UniformOffset(recs: seq<Record>) {
    forall i :: 0 <= i < |recs| ==> recs[i].stamp.offset == recs[0].stamp.offset
  }

  predicate SortedByInstant(recs: seq<Record>) {
    forall i, j :: 0 <= i < j < |recs| ==> Instant(recs[i].stamp) <= Instant(recs[j].stamp)
  }

  /** Places r after every leading record that is not later than it. */
  function InsertByInstant(r: Record, sorted: seq<Record>): (out: seq<Record>)
    ensures multiset(out) == multiset(sorted) + multiset{r}
    ensures |out| == |sorted| + 1
  {
    if |sorted| == 0 then [r]
    else if Instant(r.stamp) < Instant(sorted[0].stamp) then [r] + sorted
    else
      assert sorted == [sorted[0]] + sorted[1..];
      [sorted[0]] + InsertByInstant(r, sorted[1..])
  }

  /** A record no later than every record of a sorted list can lead it. */
  lemma LeadKeepsSorted(x: Record, xs: seq<Record>)
    requires SortedByInstant(xs)
    requires forall k :: 0 <= k < |xs| ==> Instant(x.stamp) <= Instant(xs[k].stamp)
    ensures SortedByInstant([x] + xs)
  {
    var ys := [x] + xs;
    forall i, j | 0 <= i < j < |ys|
      ensures Instant(ys[i].stamp) <= Instant(ys[j].stamp)
    {
      assert ys[j] == xs[j - 1];
      if i > 0 {
        assert ys[i] == xs[i - 1];
      }
    }
  }

  /** Insertion keeps a list sorted. */
  lemma {:induction false} InsertKeepsSorted(r: Record, sorted: seq<Record>)
    requires SortedByInstant(sorted)
    ensures SortedByInstant(InsertByInstant(r, sorted))
    decreases |sorted|
  {
    if |sorted| == 0 {
    } else if Instant(r.stamp) < Instant(sorted[0].stamp) {
      LeadKeepsSorted(r, sorted);
    } else {
      var head := sorted[0];
      var rest := sorted[1..];
      var tail := InsertByInstant(r, rest);
      InsertKeepsSorted(r, rest);
      forall k | 0 <= k < |tail|
        ensures Instant(head.stamp) <= Instant(tail[k].stamp)
      {
        assert tail[k] in multiset(tail);
        if tail[k] != r {
          assert tail[k] in multiset(rest);
          var m :| 0 <= m < |rest| && rest[m] == tail[k];
          assert sorted[m + 1] == rest[m];
        }
      }
      LeadKeepsSorted(head, tail);
    }
  }

  /** `set_index("ts").sort_index()`: the records ordered by instant. */
  function SortByInstant(recs: seq<Record>): (out: seq<Record>)
    ensures SortedByInstant(out)
    ensures multiset(out) == multiset(recs)
    ensures |out| == |recs|
  {
    if |recs| == 0 then []
    else
      assert recs == [recs[0]] + recs[1..];
      var rest := SortByInstant(recs[1..]);
      InsertKeepsSorted(recs[0], rest);
      InsertByInstant(recs[0], rest)
  }

  /** The tail of `load_log` once the lines are matched: the records
      ordered by time, or the error that stops the load. */
  function LoadEntries(entries: seq<Entry>): (r: Result<seq<Record>, LoadError>)
    ensures r.Success? <==>
      && |entries| > 0
      && ToRecords(entries).Success?
      && UniformOffset(ToRecords(entries).value)
    ensures r.Success? ==>
      && SortedByInstant(r.value)
      && multiset(r.value) == multiset(ToRecords(entries).value)
      && |r.value| == |entries|
    ensures r == Failure(NoRows) <==> |entries| == 0
    ensures r.Failure? && r.error.BadTimestamp? ==>
      exists i :: 0 <= i < |entries| && ParseCivil(entries[i].time).None?
  {
    if |entries| == 0 then Failure(NoRows)
    else
      match ToRecords(entries)
      case Failure(err) => Failure(err)
      case Success(recs) =>
        if !UniformOffset(recs) then Failure(MixedOffsets)
        else Success(SortByInstant(recs))
  }

  /** `load_log`: match every line, then convert and order the records. */
  function LoadLog(lines: seq<string>): (r: Result<seq<Record>, LoadError>)
    ensures r.Success? ==> |r.value| == |MatchAll(lines)| > 0 && SortedByInstant(r.value)
    ensures r == Failure(NoRows) <==> forall i :: 0 <= i < |lines| ==> MatchLine(lines[i]).None?
  {
    var es := MatchAll(lines);
    assert |es| > 0 ==> es[0] in es;
    LoadEntries(es)
  }

  /** A skipped line does not change what `load_log` returns. */
  lemma LoadIgnoresSkippedLine(a: seq<string>, bad: string, b: seq<string>)
    requires MatchLine(bad).None?
    ensures LoadLog(a + [bad] + b) == LoadLog(a + b)
  {
    SkippedLineIsDropped(a, bad, b);
  }
}
