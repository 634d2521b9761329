/** Reading Redis MONITOR output: the scanner for quoted strings, the line parser, and the read loop.

    A Go string is a sequence of bytes; here each `char` stands for one byte. Upper-casing a
    command name belongs to Go's library and enters as the parameter `upper`. */
module RedisMonitor {
  import opened Wrappers
  import opened Ordering

  // --- The scanner ---

  /** What follows an opening quote: text up to the closing quote, or no closing quote at all. */
  datatype Scan = Closed(text: string, rest: string) | Unclosed

  function ScanBody(s: string): (r: Scan)
    ensures r.Closed? ==> |r.rest| < |s|
  {
    if s == [] then Unclosed
    else if s[0] == '\\' && |s| > 1 then Prepend(s[1], ScanBody(s[2..]))
    else if s[0] == '"' then Closed([], s[1..])
    else Prepend(s[0], ScanBody(s[1..]))
  }

  function Prepend(c: char, scan: Scan): (r: Scan)
    ensures r.Closed? <==> scan.Closed?
    ensures r.Closed? ==> r.rest == scan.rest && r.text == [c] + scan.text
  {
    match scan
    case Closed(text, rest) => Closed([c] + text, rest)
    case Unclosed => Unclosed
  }

  /** The part behind the first quote. */
  function AfterQuote(s: string): (r: Option<string>)
    ensures r.None? <==> '"' !in s
    ensures r.Some? ==> |r.value| < |s|
  {
    if s == [] then None else if s[0] == '"' then Some(s[1..]) else AfterQuote(s[1..])
  }

  function Parse(s: string): seq<string>
    decreases |s|
  {
    match AfterQuote(s)
    case None => []
    case Some(body) =>
      match ScanBody(body)
      case Unclosed => []
      case Closed(text, rest) => [text] + Parse(rest)
  }

  lemma {:induction false} AfterQuoteAt(s: string, k: nat)
    requires k < |s| && s[k] == '"' && '"' !in s[..k]
    ensures AfterQuote(s) == Some(s[k + 1..])
  {
    if k > 0 {
      assert s[0] == s[..k][0];
      assert s[1..][..k - 1] == s[..k][1..];
      AfterQuoteAt(s[1..], k - 1);
      assert s[1..][k..] == s[k + 1..];
    }
  }

  method IndexOf(s: string, c: char) returns (k: int)
    ensures k == -1 ==> c !in s
    ensures k != -1 ==> 0 <= k < |s| && s[k] == c && c !in s[..k]
  {
    for i := 0 to |s|
      invariant c !in s[..i]
    {
      if s[i] == c {
        return i;
      }
    }
    assert s[..|s|] == s;
    return -1;
  }

  /** The outer loop. It stops because what is left shrinks. */
  method ParseQuotedStrings(line: string) returns (result: seq<string>)
    ensures result == Parse(line)
  {
    var s := line;
    result := [];
    while |s| > 0
      invariant Parse(line) == result + Parse(s)
      decreases |s|
    {
      var idx := IndexOf(s, '"');
      if idx < 0 {
        break;
      }
      AfterQuoteAt(s, idx);
      var scan := ReadQuoted(s[idx + 1..]);
      if scan.Unclosed? {
        break;
      }
      assert result + ([scan.text] + Parse(scan.rest)) == (result + [scan.text]) + Parse(scan.rest);
      result := result + [scan.text];
      s := scan.rest;
    }
  }

  /** The inner loop: up to the closing quote, with backslash escapes undone. */
  method ReadQuoted(s: string) returns (scan: Scan)
    ensures scan == ScanBody(s)
  {
    var buf: string := [];
    var i := 0;
    while i < |s|
      invariant 0 <= i <= |s|
      invariant ScanBody(s) == PrependAll(buf, ScanBody(s[i..]))
    {
      ScanStep(buf, s, i);
      if s[i] == '\\' && i + 1 < |s| {
        buf := buf + [s[i + 1]];
        i := i + 2;
      } else if s[i] == '"' {
        return Closed(buf, s[i + 1..]);
      } else {
        buf := buf + [s[i]];
        i := i + 1;
      }
    }
    scan := Unclosed;
  }

  function PrependAll(text: string, scan: Scan): Scan {
    match scan
    case Closed(t, rest) => Closed(text + t, rest)
    case Unclosed => Unclosed
  }

  lemma PrependMore(text: string, c: char, scan: Scan)
    ensures PrependAll(text, Prepend(c, scan)) == PrependAll(text + [c], scan)
  {
    if scan.Closed? {
      assert text + ([c] + scan.text) == (text + [c]) + scan.text;
    }
  }

  /** One round of the inner loop. */
  lemma ScanStep(buf: string, s: string, i: nat)
    requires i < |s|
    ensures PrependAll(buf, ScanBody(s[i..])) ==
      if s[i] == '\\' && i + 1 < |s| then PrependAll(buf + [s[i + 1]], ScanBody(s[i + 2..]))
      else if s[i] == '"' then Closed(buf, s[i + 1..])
      else PrependAll(buf + [s[i]], ScanBody(s[i + 1..]))
  {
    if s[i] == '\\' && i + 1 < |s| {
      assert s[i..][2..] == s[i + 2..];
      PrependMore(buf, s[i + 1], ScanBody(s[i + 2..]));
    } else {
      assert s[i..][1..] == s[i + 1..];
      PrependMore(buf, s[i], ScanBody(s[i + 1..]));
    }
  }

  // --- Truncation ---

  lemma {:induction false} ScanPrefix(s: string, k: nat)
    requires k <= |s|
    ensures ScanBody(s[..k]).Closed? ==>
      ScanBody(s).Closed? && ScanBody(s[..k]).text == ScanBody(s).text && ScanBody(s[..k]).rest <= ScanBody(s).rest
    decreases k
  {
    if k > 0 {
      assert s[..k][0] == s[0];
      assert s[..k][1..] == s[1..][..k - 1];
      if s[0] == '\\' && k > 1 {
        assert s[..k][2..] == s[2..][..k - 2];
        ScanPrefix(s[2..], k - 2);
      } else if s[0] == '\\' && k == 1 {
        assert ScanBody(s[..1]) == Prepend(s[0], ScanBody([]));
      } else if s[0] != '"' {
        ScanPrefix(s[1..], k - 1);
      }
    }
  }

  lemma {:induction false} AfterQuotePrefix(s: string, k: nat)
    requires k <= |s| && AfterQuote(s[..k]).Some?
    ensures AfterQuote(s).Some? && AfterQuote(s[..k]).value <= AfterQuote(s).value
  {
    assert s[..k][0] == s[0];
    assert s[..k][1..] == s[1..][..k - 1];
    if s[0] != '"' {
      AfterQuotePrefix(s[1..], k - 1);
    }
  }

  /** Cutting the input anywhere, inside an escape too, only loses strings from the end. */
  lemma {:induction false} TruncationIsMonotone(s: string, k: nat)
    requires k <= |s|
    ensures Parse(s[..k]) <= Parse(s)
    decreases k
  {
    var cut := s[..k];
    if AfterQuote(cut).Some? {
      AfterQuotePrefix(s, k);
      var body, body' := AfterQuote(s).value, AfterQuote(cut).value;
      assert body' == body[..|body'|];
      ScanPrefix(body, |body'|);
      if ScanBody(body').Closed? {
        var rest, rest' := ScanBody(body).rest, ScanBody(body').rest;
        assert rest' == rest[..|rest'|];
        TruncationIsMonotone(rest, |rest'|);
      }
    }
  }

  // --- Round trip ---

  /** `quoted` is a way to write `text` between quotes: a backslash before every quote and every
      backslash, and before any other byte it likes. */
  predicate Escapes(text: string, quoted: string)
    decreases |text|
  {
    if text == [] then quoted == []
    else
      || (|quoted| >= 2 && quoted[0] == '\\' && quoted[1] == text[0] && Escapes(text[1..], quoted[2..]))
      || (|quoted| >= 1 && quoted[0] == text[0] && text[0] != '"' && text[0] != '\\' && Escapes(text[1..], quoted[1..]))
  }

  function Escape(text: string): (quoted: string)
    ensures Escapes(text, quoted)
  {
    if text == [] then []
    else if text[0] == '"' || text[0] == '\\' then ['\\', text[0]] + Escape(text[1..])
    else [text[0]] + Escape(text[1..])
  }

  lemma {:induction false} ScanEscaped(text: string, quoted: string, rest: string)
    requires Escapes(text, quoted)
    ensures ScanBody(quoted + (['"'] + rest)) == Closed(text, rest)
    decreases |text|
  {
    var s := quoted + (['"'] + rest);
    if text == [] {
      assert s == ['"'] + rest;
      assert s[1..] == rest;
    } else if |quoted| >= 2 && quoted[0] == '\\' && quoted[1] == text[0] && Escapes(text[1..], quoted[2..]) {
      assert s[2..] == quoted[2..] + (['"'] + rest);
      ScanEscaped(text[1..], quoted[2..], rest);
      assert s[0] == '\\' && s[1] == text[0];
      assert ScanBody(s) == Prepend(text[0], Closed(text[1..], rest));
    } else {
      assert s[1..] == quoted[1..] + (['"'] + rest);
      ScanEscaped(text[1..], quoted[1..], rest);
      assert s[0] == text[0];
      assert ScanBody(s) == Prepend(text[0], Closed(text[1..], rest));
    }
  }

  /** One string as it stands in a line: a gap without quotes, then the quoted string. */
  datatype Piece = Piece(gap: string, quoted: string)

  function Written(pieces: seq<Piece>, tail: string): string {
    if pieces == [] then tail
    else pieces[0].gap + (['"'] + (pieces[0].quoted + (['"'] + Written(pieces[1..], tail))))
  }

  ghost predicate Writes(texts: seq<string>, pieces: seq<Piece>) {
    && |pieces| == |texts|
    && forall i :: 0 <= i < |texts| ==> '"' !in pieces[i].gap && Escapes(texts[i], pieces[i].quoted)
  }

  /** A remainder that holds no further complete string. */
  predicate Barren(tail: string) {
    match AfterQuote(tail)
    case None => true
    case Some(body) => ScanBody(body).Unclosed?
  }

  lemma AfterGap(s: string, gap: string, body: string)
    requires s == gap + (['"'] + body) && '"' !in gap
    ensures AfterQuote(s) == Some(body)
  {
    assert s[|gap|] == '"' && s[..|gap|] == gap;
    AfterQuoteAt(s, |gap|);
    assert s[|gap| + 1..] == body;
  }

  /** Round trip: however the strings are escaped, whatever stands between them, and whatever
      incomplete rest follows, the scanner returns exactly the strings. */
  lemma {:induction false} ParseReadsBack(texts: seq<string>, pieces: seq<Piece>, tail: string)
    requires Writes(texts, pieces) && Barren(tail)
    ensures Parse(Written(pieces, tail)) == texts
    decreases |texts|
  {
    if texts != [] {
      var rest := Written(pieces[1..], tail);
      var gap, quoted := pieces[0].gap, pieces[0].quoted;
      AfterGap(Written(pieces, tail), gap, quoted + (['"'] + rest));
      ScanEscaped(texts[0], quoted, rest);
      ParseReadsBack(texts[1..], pieces[1..], tail);
    }
  }

  lemma EscapesMore(c: char, text: string, quoted: string)
    requires Escapes(text, quoted)
    ensures Escapes([c] + text, ['\\', c] + quoted)
    ensures c != '"' && c != '\\' ==> Escapes([c] + text, [c] + quoted)
  {
    assert ([c] + text)[1..] == text;
    assert (['\\', c] + quoted)[2..] == quoted && ([c] + quoted)[1..] == quoted;
  }

  lemma EscapedInFront(front: string, s: string, quoted: string, rest: string)
    requires s == quoted + (['"'] + rest)
    ensures front + s == (front + quoted) + (['"'] + rest)
  {
    var end := ['"'] + rest;
    assert front + (quoted + end) == (front + quoted) + end;
  }

  lemma {:induction false} ScanWasEscaped(s: string) returns (quoted: string)
    requires ScanBody(s).Closed?
    ensures Escapes(ScanBody(s).text, quoted) && s == quoted + (['"'] + ScanBody(s).rest)
    decreases |s|
  {
    if s[0] == '\\' && |s| > 1 {
      var s' := s[2..];
      var q := ScanWasEscaped(s');
      EscapesMore(s[1], ScanBody(s').text, q);
      EscapedInFront(['\\', s[1]], s', q, ScanBody(s').rest);
      quoted := ['\\', s[1]] + q;
      assert s == ['\\', s[1]] + s';
    } else if s[0] == '"' {
      quoted := [];
    } else {
      var s' := s[1..];
      assert |s| == 1 ==> ScanBody(s') == Unclosed;
      var q := ScanWasEscaped(s');
      EscapesMore(s[0], ScanBody(s').text, q);
      EscapedInFront([s[0]], s', q, ScanBody(s').rest);
      quoted := [s[0]] + q;
      assert s == [s[0]] + s';
    }
  }

  /** And there is no other way to produce a result: every input is a writing of what the
      scanner returns, followed by a barren rest. */
  lemma {:induction false} ParsedWasWritten(s: string) returns (pieces: seq<Piece>, tail: string)
    ensures Writes(Parse(s), pieces) && Barren(tail) && s == Written(pieces, tail)
    decreases |s|
  {
    if Barren(s) {
      pieces, tail := [], s;
    } else {
      var body := AfterQuote(s).value;
      var gap := GapBefore(s);
      var quoted := ScanWasEscaped(body);
      var more, t := ParsedWasWritten(ScanBody(body).rest);
      pieces, tail := [Piece(gap, quoted)] + more, t;
      assert pieces[1..] == more;
      assert Parse(s)[1..] == Parse(ScanBody(body).rest);
      forall i | 0 <= i < |pieces|
        ensures '"' !in pieces[i].gap && Escapes(Parse(s)[i], pieces[i].quoted)
      {
        if i > 0 {
          assert pieces[i] == more[i - 1] && Parse(s)[i] == Parse(ScanBody(body).rest)[i - 1];
        }
      }
    }
  }

  lemma {:induction false} GapBefore(s: string) returns (gap: string)
    requires AfterQuote(s).Some?
    ensures '"' !in gap && s == gap + (['"'] + AfterQuote(s).value)
  {
    if s[0] == '"' {
      gap := [];
    } else {
      var g := GapBefore(s[1..]);
      gap := [s[0]] + g;
      assert s == [s[0]] + s[1..];
    }
  }

  /** Every list of strings can be written so: a space and the escaped string between quotes, each. */
  lemma AnyListReadsBack(texts: seq<string>)
    ensures Parse(Written(seq(|texts|, i requires 0 <= i < |texts| => Piece(" ", Escape(texts[i]))), "")) == texts
  {
    ParseReadsBack(texts, seq(|texts|, i requires 0 <= i < |texts| => Piece(" ", Escape(texts[i]))), "");
  }

  // --- Lines ---

  datatype MonitorEntry = MonitorEntry(command: string, args: seq<string>)

  function Key(entry: MonitorEntry): string {
    if entry.args == [] then "" else entry.args[0]
  }

  predicate BracketAt(line: string, i: nat) {
    i + 1 < |line| && line[i] == ']' && line[i + 1] == ' '
  }

  /** The part behind the first "] ". */
  function AfterBracket(line: string): Option<string> {
    if |line| < 2 then None
    else if BracketAt(line, 0) then Some(line[2..])
    else AfterBracket(line[1..])
  }

  function ParseLine(line: string, upper: string -> string): Option<MonitorEntry> {
    if !("+" <= line) || ' ' !in line then None
    else
      match AfterBracket(line)
      case None => None
      case Some(rest) =>
        var parts := Parse(rest);
        if parts == [] then None else Some(MonitorEntry(upper(parts[0]), parts[1..]))
  }

  /** LLEN is listed in the source too, as not relevant. */
  predicate Relevant(entry: MonitorEntry, queues: seq<string>) {
    entry.command in {"LPUSH", "RPUSH", "LPOP", "RPOP", "BRPOP", "BLPOP"} && Key(entry) in queues
  }

  lemma {:induction false} AfterBracketSkips(header: string, rest: string)
    requires forall i: nat :: !BracketAt(header, i)
    ensures AfterBracket(header + ("] " + rest)) == Some(rest)
  {
    var line := header + ("] " + rest);
    if header == [] {
      assert line[2..] == rest;
    } else {
      forall i: nat ensures !BracketAt(header[1..], i) {
        assert !BracketAt(header, i + 1);
      }
      assert !BracketAt(line, 0) by {
        assert !BracketAt(header, 0);
      }
      AfterBracketSkips(header[1..], rest);
      assert line[1..] == header[1..] + ("] " + rest);
    }
  }

  /** `parseLine` recovers command and arguments behind any header that starts with a plus and
      holds no earlier "] ". */
  lemma ParseLineReadsBack(header: string, texts: seq<string>, pieces: seq<Piece>, tail: string,
      upper: string -> string)
    requires "+" <= header && forall i: nat :: !BracketAt(header, i)
    requires texts != [] && Writes(texts, pieces) && Barren(tail)
    ensures ParseLine(header + ("] " + Written(pieces, tail)), upper) == Some(MonitorEntry(upper(texts[0]), texts[1..]))
  {
    var line := header + ("] " + Written(pieces, tail));
    AfterBracketSkips(header, Written(pieces, tail));
    ParseReadsBack(texts, pieces, tail);
    assert line[|header| + 1] == ' ';
    assert line[0] == header[0];
  }

  /** The first place in a line where a bracket closes before a space. */
  ghost predicate FirstBracket(line: string, i: nat) {
    && i + 1 < |line| && line[i] == ']' && line[i + 1] == ' '
    && forall j: nat :: j < i ==> !(line[j] == ']' && line[j + 1] == ' ')
  }

  lemma {:induction false} BracketFound(line: string, i: nat)
    requires FirstBracket(line, i)
    ensures AfterBracket(line) == Some(line[i + 2..])
  {
    if i > 0 {
      var rest := line[1..];
      assert forall j :: 0 <= j < |rest| ==> rest[j] == line[j + 1];
      assert !(line[0] == ']' && line[0 + 1] == ' ');
      BracketFound(rest, i - 1);
      assert rest[i + 1..] == line[i + 2..];
    }
  }

  lemma {:induction false} WhereBracket(line: string) returns (i: nat)
    requires AfterBracket(line).Some?
    ensures FirstBracket(line, i)
  {
    if BracketAt(line, 0) {
      i := 0;
    } else {
      var j := WhereBracket(line[1..]);
      i := j + 1;
      assert forall k :: 0 <= k < |line[1..]| ==> line[1..][k] == line[k + 1];
      forall k: nat | k < i ensures !(line[k] == ']' && line[k + 1] == ' ') {
        if k > 0 {
          assert !(line[1..][k - 1] == ']' && line[1..][k - 1 + 1] == ' ');
        }
      }
    }
  }

  /** A line is understood exactly when it starts with a plus and some quoted string stands behind
      its first "] ": the first one is the command. */
  lemma LineIsUnderstoodIff(line: string, upper: string -> string)
    ensures ParseLine(line, upper).Some? <==>
      line != [] && line[0] == '+' && exists i :: FirstBracket(line, i) && Parse(line[i + 2..]) != []
    ensures forall i | FirstBracket(line, i) && ParseLine(line, upper).Some? ::
      var words := Parse(line[i + 2..]);
      words != [] && ParseLine(line, upper).value == MonitorEntry(upper(words[0]), words[1..])
  {
    forall i | FirstBracket(line, i) ensures AfterBracket(line) == Some(line[i + 2..]) && ' ' in line {
      BracketFound(line, i);
      assert line[i + 1] == ' ';
    }
    if AfterBracket(line).Some? {
      var i := WhereBracket(line);
    }
  }

  // --- The scanner that cuts the connection's bytes into lines ---

  /** bufio.Scanner gives up on a line that does not fit its buffer. */
  const TOKEN_LIMIT: nat := 65536

  /** The bytes up to and with the first newline, or all of them. */
  function FirstLine(stream: string): (raw: string)
    ensures |raw| <= |stream| && (stream != [] ==> raw != [])
  {
    if stream == [] then []
    else if stream[0] == '\n' then ['\n']
    else [stream[0]] + FirstLine(stream[1..])
  }

  function DropEnd(raw: string, c: char): string {
    if raw != [] && raw[|raw| - 1] == c then raw[..|raw| - 1] else raw
  }

  function Token(raw: string): string {
    DropEnd(DropEnd(raw, '\n'), '\r')
  }

  /** A full buffer without a newline is an error, at the end of the stream too. */
  predicate Fits(raw: string) {
    |raw| < TOKEN_LIMIT || (|raw| == TOKEN_LIMIT && raw[|raw| - 1] == '\n')
  }

  /** The lines that the scanner hands out: none at or behind the first that does not fit. */
  function Delivered(stream: string): seq<string>
    decreases |stream|
  {
    if stream == [] || !Fits(FirstLine(stream)) then []
    else [Token(FirstLine(stream))] + Delivered(stream[|FirstLine(stream)|..])
  }

  // --- The read loop ---

  function CapturedLine(line: string, queues: seq<string>, upper: string -> string): seq<MonitorEntry> {
    if line == "+OK" then []
    else
      match ParseLine(line, upper)
      case None => []
      case Some(entry) => if Relevant(entry, queues) then [entry] else []
  }

  /** The relevant entries of the lines that `takes` picks by their number. */
  function Captured(lines: seq<string>, queues: seq<string>, upper: string -> string,
      takes: nat -> bool): seq<MonitorEntry> {
    if lines == [] then []
    else
      var k := |lines| - 1;
      Captured(lines[..k], queues, upper, takes) + if takes(k) then CapturedLine(lines[k], queues, upper) else []
  }

  /** A line worth capturing: not the answer to MONITOR, and a push or pop on a configured queue. */
  ghost predicate Wanted(line: string, queues: seq<string>, upper: string -> string) {
    line != "+OK" && ParseLine(line, upper).Some? &&
    var entry := ParseLine(line, upper).value;
    && entry.command in {"LPUSH", "RPUSH", "LPOP", "RPOP", "BLPOP", "BRPOP"}
    && (if entry.args == [] then "" else entry.args[0]) in queues
  }

  ghost function WantedAt(lines: seq<string>, queues: seq<string>, upper: string -> string,
      takes: nat -> bool): nat -> bool {
    (k: nat) => k < |lines| && takes(k) && Wanted(lines[k], queues, upper)
  }

  lemma WantedIsCaptured(line: string, queues: seq<string>, upper: string -> string)
    ensures CapturedLine(line, queues, upper) ==
      if Wanted(line, queues, upper) then [ParseLine(line, upper).value] else []
  {
  }

  lemma PickedBefore(lines: seq<string>, n: nat, queues: seq<string>, upper: string -> string, takes: nat -> bool)
    requires n < |lines|
    ensures forall k: nat | k < n ::
      WantedAt(lines[..n], queues, upper, takes)(k) == WantedAt(lines, queues, upper, takes)(k)
  {
    assert forall k :: 0 <= k < n ==> lines[..n][k] == lines[k];
  }

  /** The entries are what the picked lines say, in order. */
  ghost predicate Says(lines: seq<string>, at: seq<nat>, upper: string -> string, entries: seq<MonitorEntry>) {
    && |entries| == |at|
    && forall j :: 0 <= j < |at| ==> at[j] < |lines| && ParseLine(lines[at[j]], upper) == Some(entries[j])
  }

  lemma SaysMore(lines: seq<string>, at: seq<nat>, upper: string -> string, entries: seq<MonitorEntry>, n: nat)
    requires n < |lines| && Says(lines[..n], at, upper, entries)
    ensures Says(lines, at, upper, entries)
    ensures ParseLine(lines[n], upper).Some? ==>
      Says(lines, at + [n], upper, entries + [ParseLine(lines[n], upper).value])
  {
    assert forall k :: 0 <= k < n ==> lines[..n][k] == lines[k];
  }

  /** What is captured is, in order, exactly what the wanted ones among the picked lines say. */
  lemma {:induction false} CapturedAt(lines: seq<string>, queues: seq<string>, upper: string -> string,
      takes: nat -> bool) returns (at: seq<nat>)
    ensures Picks(at, |lines|, WantedAt(lines, queues, upper, takes))
    ensures Says(lines, at, upper, Captured(lines, queues, upper, takes))
  {
    if lines == [] {
      at := [];
    } else {
      var n := |lines| - 1;
      var earlier := CapturedAt(lines[..n], queues, upper, takes);
      PickedBefore(lines, n, queues, upper, takes);
      PickNext(earlier, n, WantedAt(lines[..n], queues, upper, takes), WantedAt(lines, queues, upper, takes));
      SaysMore(lines, earlier, upper, Captured(lines[..n], queues, upper, takes), n);
      WantedIsCaptured(lines[n], queues, upper);
      at := if WantedAt(lines, queues, upper, takes)(n) then earlier + [n] else earlier;
    }
  }

  predicate Every(i: nat) {
    true
  }

  lemma CapturedMore(lines: seq<string>, line: string, queues: seq<string>, upper: string -> string, takes: nat -> bool)
    ensures Captured(lines + [line], queues, upper, takes) ==
      Captured(lines, queues, upper, takes) + if takes(|lines|) then CapturedLine(line, queues, upper) else []
  {
    assert (lines + [line])[..|lines|] == lines;
  }

  /** The same behind what was captured before. */
  lemma CapturedBehind(before: seq<MonitorEntry>, lines: seq<string>, line: string, queues: seq<string>,
                       upper: string -> string, takes: nat -> bool)
    ensures before + Captured(lines + [line], queues, upper, takes) ==
      (before + Captured(lines, queues, upper, takes)) + if takes(|lines|) then CapturedLine(line, queues, upper)
        else []
  {
    CapturedMore(lines, line, queues, upper, takes);
    var more := if takes(|lines|) then CapturedLine(line, queues, upper) else [];
    assert before + (Captured(lines, queues, upper, takes) + more) ==
           (before + Captured(lines, queues, upper, takes)) + more;
  }

  lemma DeliveredNext(stream: string, lines: seq<string>, rest: string)
    requires Delivered(stream) == lines + Delivered(rest) && rest != [] && Fits(FirstLine(rest))
    ensures Delivered(stream) == (lines + [Token(FirstLine(rest))]) + Delivered(rest[|FirstLine(rest)|..])
  {
    var line, more := Token(FirstLine(rest)), Delivered(rest[|FirstLine(rest)|..]);
    assert lines + ([line] + more) == (lines + [line]) + more;
  }

  lemma LoopEnds(stream: string, lines: seq<string>, rest: string, doneAt: nat)
    requires Delivered(stream) == lines + Delivered(rest) && |lines| <= doneAt
    requires rest == [] || !Fits(FirstLine(rest)) || |lines| == doneAt
    ensures lines == if doneAt < |Delivered(stream)| then Delivered(stream)[..doneAt] else Delivered(stream)
  {
  }

  class Adapter {
    const queues: seq<string>
    var eventCount: nat
    var offered: seq<MonitorEntry>   // what the sink was given
    var accepted: seq<MonitorEntry>  // what it took

    constructor (queues: seq<string>)
      ensures this.queues == queues && eventCount == 0 && offered == accepted == []
    {
      this.queues := queues;
      eventCount := 0;
      offered, accepted := [], [];
    }

    /** Reads the bytes that arrive before the connection closes. `doneAt` is the line at which the
        context is found to be done, and `takes` says for which lines the sink accepts the
        event; a refused one is logged and not counted. */
    method ReadMonitor(stream: string, doneAt: nat, upper: string -> string, takes: nat -> bool)
      modifies this`eventCount, this`offered, this`accepted
      ensures var lines := if doneAt < |Delivered(stream)| then Delivered(stream)[..doneAt] else Delivered(stream);
        && offered == old(offered) + Captured(lines, queues, upper, Every)
        && accepted == old(accepted) + Captured(lines, queues, upper, takes)
      ensures eventCount - old(eventCount) == |accepted| - |old(accepted)|
    {
      var rest, i := stream, 0;
      ghost var lines: seq<string> := [];
      while rest != [] && Fits(FirstLine(rest)) && i != doneAt
        invariant |lines| == i <= doneAt && Delivered(stream) == lines + Delivered(rest)
        invariant offered == old(offered) + Captured(lines, queues, upper, Every)
        invariant accepted == old(accepted) + Captured(lines, queues, upper, takes)
        invariant eventCount - old(eventCount) == |accepted| - |old(accepted)|
        decreases |rest|
      {
        var raw := FirstLine(rest);
        var line := Token(raw);
        CapturedBehind(old(offered), lines, line, queues, upper, Every);
        CapturedBehind(old(accepted), lines, line, queues, upper, takes);
        DeliveredNext(stream, lines, rest);
        ReadLine(line, upper, takes(i));
        rest := rest[|raw|..];
        lines := lines + [line];
        i := i + 1;
      }
      LoopEnds(stream, lines, rest, doneAt);
    }

    /** One turn of the loop. */
    method ReadLine(line: string, upper: string -> string, takes: bool)
      modifies this`eventCount, this`offered, this`accepted
      ensures offered == old(offered) + CapturedLine(line, queues, upper)
      ensures accepted == old(accepted) + if takes then CapturedLine(line, queues, upper) else []
      ensures eventCount - old(eventCount) == |accepted| - |old(accepted)|
    {
      if line == "+OK" {
        return;
      }
      var parsed := ParseLine(line, upper);
      if parsed.None? || !Relevant(parsed.value, queues) {
        return;
      }
      offered := offered + [parsed.value];
      if takes {
        accepted := accepted + [parsed.value];
        eventCount := eventCount + 1;
      }
    }
  }

  // --- A whole session ---

  /** A command as MONITOR prints it. */
  datatype Command = Command(header: string, texts: seq<string>, pieces: seq<Piece>, tail: string)

  function Printed(c: Command): string {
    c.header + ("] " + Written(c.pieces, c.tail))
  }

  /** Redis prints a newline inside a word as an escape. */
  ghost predicate WellFormed(c: Command) {
    && "+" <= c.header && (forall i: nat :: !BracketAt(c.header, i))
    && c.texts != [] && Writes(c.texts, c.pieces) && Barren(c.tail)
    && '\n' !in Printed(c)
  }

  /** What the command says, by its own words and not by its print. */
  function EntryOf(c: Command, upper: string -> string): MonitorEntry
    requires c.texts != []
  {
    MonitorEntry(upper(c.texts[0]), c.texts[1..])
  }

  function RelevantOnes(commands: seq<Command>, queues: seq<string>, upper: string -> string): seq<MonitorEntry>
    requires forall c | c in commands :: c.texts != []
  {
    if commands == [] then []
    else
      var entry := EntryOf(commands[0], upper);
      (if Relevant(entry, queues) then [entry] else []) + RelevantOnes(commands[1..], queues, upper)
  }

  const LINE_END := "\r\n"

  function Transcript(commands: seq<Command>): string {
    if commands == [] then [] else (Printed(commands[0]) + LINE_END) + Transcript(commands[1..])
  }

  /** The answer to MONITOR, then the commands. */
  function Session(commands: seq<Command>): string {
    ("+OK" + LINE_END) + Transcript(commands)
  }

  predicate Overlong(c: Command) {
    |Printed(c)| + |LINE_END| > TOKEN_LIMIT
  }

  /** The commands ahead of the first overlong one. */
  function Readable(commands: seq<Command>): (r: seq<Command>)
    ensures r <= commands && forall c | c in r :: c in commands
    ensures |r| < |commands| ==> Overlong(commands[|r|])
    ensures forall i :: 0 <= i < |r| ==> !Overlong(commands[i])
  {
    if commands == [] || Overlong(commands[0]) then [] else [commands[0]] + Readable(commands[1..])
  }

  function Prints(commands: seq<Command>): seq<string> {
    if commands == [] then [] else [Printed(commands[0])] + Prints(commands[1..])
  }

  lemma {:induction false} FirstLineEnds(line: string, stream: string, rest: string)
    requires '\n' !in line && stream == (line + ['\n']) + rest
    ensures FirstLine(stream) == line + ['\n']
  {
    if line != [] {
      assert stream[0] == line[0];
      assert stream[1..] == (line[1..] + ['\n']) + rest;
      FirstLineEnds(line[1..], stream[1..], rest);
      assert line + ['\n'] == [line[0]] + (line[1..] + ['\n']);
    }
  }

  lemma {:induction false} NoLineEnd(line: string)
    requires '\n' !in line
    ensures FirstLine(line) == line
  {
    if line != [] {
      NoLineEnd(line[1..]);
    }
  }

  function WithoutReturn(line: string): string {
    if line != [] && line[|line| - 1] == '\r' then line[..|line| - 1] else line
  }

  /** The first line of a stream is handed out, less a carriage return at its end, if it takes at
      most 65536 bytes with its newline; if not, nothing is handed out any more. */
  lemma FirstLineDelivered(line: string, stream: string, rest: string)
    requires '\n' !in line && stream == (line + ['\n']) + rest
    ensures Delivered(stream) == if |line| + 1 > 65536 then [] else [WithoutReturn(line)] + Delivered(rest)
  {
    var raw := line + ['\n'];
    FirstLineEnds(line, stream, rest);
    assert stream[|raw|..] == rest;
    assert DropEnd(raw, '\n') == line;
  }

  /** What remains without a newline when the connection closes is a line too, of fewer bytes. */
  lemma LastLineDelivered(line: string)
    requires '\n' !in line && line != []
    ensures Delivered(line) == if |line| >= 65536 then [] else [WithoutReturn(line)]
  {
    NoLineEnd(line);
    assert DropEnd(line, '\n') == line;
    assert line[|line|..] == [] && Delivered([]) == [];
  }

  /** One printed line more at the head of the stream. */
  lemma LineDelivered(line: string, stream: string, rest: string)
    requires '\n' !in line && stream == (line + LINE_END) + rest
    ensures Delivered(stream) == if |line| + |LINE_END| > TOKEN_LIMIT then [] else [line] + Delivered(rest)
  {
    var full := line + ['\r'];
    assert line + LINE_END == full + ['\n'];
    FirstLineDelivered(full, stream, rest);
    assert WithoutReturn(full) == line;
  }

  lemma {:induction false} TranscriptDelivered(commands: seq<Command>)
    requires forall c | c in commands :: WellFormed(c)
    ensures Delivered(Transcript(commands)) == Prints(Readable(commands))
  {
    if commands != [] {
      var c := commands[0];
      assert c in commands;
      LineDelivered(Printed(c), Transcript(commands), Transcript(commands[1..]));
      TranscriptDelivered(commands[1..]);
      if !Overlong(c) {
        assert Readable(commands)[1..] == Readable(commands[1..]);
      }
    }
  }

  lemma {:induction false} CapturedSplits(a: seq<string>, b: seq<string>, queues: seq<string>, upper: string -> string)
    ensures Captured(a + b, queues, upper, Every) ==
      Captured(a, queues, upper, Every) + Captured(b, queues, upper, Every)
  {
    if b == [] {
      assert a + b == a;
    } else {
      var k := |b| - 1;
      assert a + b == (a + b[..k]) + [b[k]] && b == b[..k] + [b[k]];
      CapturedSplits(a, b[..k], queues, upper);
      CapturedMore(a + b[..k], b[k], queues, upper, Every);
      CapturedMore(b[..k], b[k], queues, upper, Every);
    }
  }

  lemma PrintIsCaptured(c: Command, queues: seq<string>, upper: string -> string)
    requires WellFormed(c)
    ensures CapturedLine(Printed(c), queues, upper) ==
      if Relevant(EntryOf(c, upper), queues) then [EntryOf(c, upper)] else []
  {
    ParseLineReadsBack(c.header, c.texts, c.pieces, c.tail, upper);
    assert Printed(c)[|c.header| + 1] == ' ';
    assert ' ' in Printed(c) && ' ' !in "+OK";
  }

  lemma {:induction false} PrintsAreCaptured(commands: seq<Command>, queues: seq<string>, upper: string -> string)
    requires forall c | c in commands :: c.texts != [] && WellFormed(c)
    ensures Captured(Prints(commands), queues, upper, Every) == RelevantOnes(commands, queues, upper)
  {
    if commands != [] {
      var c := commands[0];
      assert c in commands;
      PrintsAreCaptured(commands[1..], queues, upper);
      PrintIsCaptured(c, queues, upper);
      CapturedSplits([Printed(c)], Prints(commands[1..]), queues, upper);
      CapturedMore([], Printed(c), queues, upper, Every);
      assert [] + [Printed(c)] == [Printed(c)];
    }
  }

  lemma {:induction false} RelevantSplit(a: seq<Command>, b: seq<Command>, all: seq<Command>, queues: seq<string>,
      upper: string -> string)
    requires all == a + b && forall c | c in all :: c.texts != []
    ensures RelevantOnes(all, queues, upper) == RelevantOnes(a, queues, upper) + RelevantOnes(b, queues, upper)
  {
    if a == [] {
      assert all == b;
    } else {
      assert all[0] == a[0] && all[1..] == a[1..] + b;
      RelevantSplit(a[1..], b, all[1..], queues, upper);
      var entry := EntryOf(a[0], upper);
      var first := if Relevant(entry, queues) then [entry] else [];
      assert first + (RelevantOnes(a[1..], queues, upper) + RelevantOnes(b, queues, upper)) ==
             (first + RelevantOnes(a[1..], queues, upper)) + RelevantOnes(b, queues, upper);
    }
  }

  lemma {:induction false} NoneRelevant(commands: seq<Command>, queues: seq<string>, upper: string -> string)
    requires forall c | c in commands :: c.texts != []
    ensures RelevantOnes(commands, queues, upper) == [] <==>
      forall c | c in commands :: !Relevant(EntryOf(c, upper), queues)
  {
    if commands != [] {
      assert commands == [commands[0]] + commands[1..];
      NoneRelevant(commands[1..], queues, upper);
    }
  }

  /** A command is among them exactly when it is a push or pop whose first argument is a configured
      queue; a missing argument counts as the empty name. */
  lemma {:induction false} RelevantByWords(commands: seq<Command>, queues: seq<string>, upper: string -> string,
                                           e: MonitorEntry)
    requires forall c | c in commands :: c.texts != []
    ensures e in RelevantOnes(commands, queues, upper) <==>
      exists c | c in commands :: Yields(c, queues, upper, e)
  {
    if commands != [] {
      var head, rest := commands[0], commands[1..];
      assert commands == [head] + rest;
      RelevantByWords(rest, queues, upper, e);
      var entry := EntryOf(head, upper);
      assert RelevantOnes(commands, queues, upper) ==
        (if Relevant(entry, queues) then [entry] else []) + RelevantOnes(rest, queues, upper);
      assert Yields(head, queues, upper, e) <==> Relevant(entry, queues) && e == entry;
    }
  }

  ghost predicate Yields(c: Command, queues: seq<string>, upper: string -> string, e: MonitorEntry)
    requires c.texts != []
  {
    && e == MonitorEntry(upper(c.texts[0]), c.texts[1..])
    && upper(c.texts[0]) in {"LPUSH", "RPUSH", "LPOP", "RPOP", "BLPOP", "BRPOP"}
    && (if |c.texts| > 1 then c.texts[1] else "") in queues
  }

  /** No relevant command stands at or behind an overlong line. */
  ghost predicate NothingRelevantCutOff(commands: seq<Command>, queues: seq<string>, upper: string -> string)
    requires forall c | c in commands :: c.texts != []
  {
    forall i, j | 0 <= i <= j < |commands| && Overlong(commands[i]) :: !Relevant(EntryOf(commands[j], upper), queues)
  }

  /** End to end: of a session the loop captures exactly the commands that touch a configured queue,
      with their words restored, up to the first line longer than the scanner's buffer. That is
      all of them if and only if none stands at or behind an overlong line. */
  lemma SessionIsCaptured(commands: seq<Command>, queues: seq<string>, upper: string -> string)
    requires forall c | c in commands :: c.texts != [] && WellFormed(c)
    ensures var captured := Captured(Delivered(Session(commands)), queues, upper, Every);
      && captured == RelevantOnes(Readable(commands), queues, upper)
      && (captured == RelevantOnes(commands, queues, upper) <==> NothingRelevantCutOff(commands, queues, upper))
  {
    var shown := Readable(commands);
    var hidden := commands[|shown|..];
    assert commands == shown + hidden;
    LineDelivered("+OK", Session(commands), Transcript(commands));
    TranscriptDelivered(commands);
    CapturedSplits(["+OK"], Prints(shown), queues, upper);
    CapturedMore([], "+OK", queues, upper, Every);
    assert [] + ["+OK"] == ["+OK"];
    PrintsAreCaptured(shown, queues, upper);
    RelevantSplit(shown, hidden, commands, queues, upper);
    NoneRelevant(hidden, queues, upper);
    HiddenOnes(commands, hidden, queues, upper);
  }

  /** In words: captured is what a command ahead of the first overlong line yields, and nothing else. */
  lemma SessionCapturesByWords(commands: seq<Command>, queues: seq<string>, upper: string -> string, e: MonitorEntry)
    requires forall c | c in commands :: c.texts != [] && WellFormed(c)
    ensures e in Captured(Delivered(Session(commands)), queues, upper, Every) <==>
      exists c | c in Readable(commands) :: Yields(c, queues, upper, e)
  {
    SessionIsCaptured(commands, queues, upper);
    RelevantByWords(Readable(commands), queues, upper, e);
  }

  lemma HiddenOnes(commands: seq<Command>, hidden: seq<Command>, queues: seq<string>, upper: string -> string)
    requires commands == Readable(commands) + hidden
    requires forall c | c in commands :: c.texts != []
    ensures NothingRelevantCutOff(commands, queues, upper) <==>
      forall c | c in hidden :: c in commands && !Relevant(EntryOf(c, upper), queues)
  {
    var shown := Readable(commands);
    if forall c | c in hidden :: !Relevant(EntryOf(c, upper), queues) {
      forall i, j | 0 <= i <= j < |commands| && Overlong(commands[i])
        ensures !Relevant(EntryOf(commands[j], upper), queues)
      {
        assert commands[j] == hidden[j - |shown|];
      }
    }
    if NothingRelevantCutOff(commands, queues, upper) {
      forall c | c in hidden ensures !Relevant(EntryOf(c, upper), queues) {
        var j :| 0 <= j < |hidden| && hidden[j] == c;
        assert commands[|shown| + j] == c && Overlong(commands[|shown|]);
      }
    }
  }

  // --- Redis's own printer ---

  /** The bytes that Redis prints as a backslash and a letter. */
  function ControlLetter(c: char): Option<char> {
    if c == '\n' then Some('n')
    else if c == '\r' then Some('r')
    else if c == '\t' then Some('t')
    else if c as int == 7 then Some('a')
    else if c as int == 8 then Some('b')
    else None
  }

  predicate Printable(c: char) {
    ' ' <= c <= '~'
  }

  function HexDigit(n: nat): (d: char)
    requires n < 16
    ensures '0' <= d <= '9' || 'a' <= d <= 'f'
  {
    "0123456789abcdef"[n]
  }

  /** How Redis prints one byte between quotes. */
  function PrintedByte(c: char): string {
    if ControlLetter(c).Some? then ['\\', ControlLetter(c).value]
    else if c == '"' || c == '\\' then ['\\', c]
    else if Printable(c) then [c]
    else ['\\', 'x', HexDigit(c as int / 16 % 16), HexDigit(c as int % 16)]
  }

  /** What the scanner makes of it: it drops the backslash of every escape. */
  function HeardByte(c: char): string {
    if ControlLetter(c).Some? then [ControlLetter(c).value]
    else if Printable(c) then [c]
    else ['x', HexDigit(c as int / 16 % 16), HexDigit(c as int % 16)]
  }

  function PrintedWord(word: string): string {
    if word == [] then [] else PrintedByte(word[0]) + PrintedWord(word[1..])
  }

  function Heard(word: string): string {
    if word == [] then [] else HeardByte(word[0]) + Heard(word[1..])
  }

  lemma {:induction false} PrintedIsEscaped(word: string)
    ensures Escapes(Heard(word), PrintedWord(word))
    ensures '\n' !in PrintedWord(word) && |PrintedWord(word)| >= |word|
  {
    if word != [] {
      var text, quoted := Heard(word[1..]), PrintedWord(word[1..]);
      PrintedIsEscaped(word[1..]);
      OneByteEscaped(word[0], text, quoted);
    }
  }

  lemma OneByteEscaped(c: char, text: string, quoted: string)
    requires Escapes(text, quoted)
    ensures Escapes(HeardByte(c) + text, PrintedByte(c) + quoted)
    ensures '\n' !in PrintedByte(c) && |PrintedByte(c)| >= 1
  {
    if ControlLetter(c).Some? {
      EscapesMore(ControlLetter(c).value, text, quoted);
    } else if Printable(c) {
      EscapesMore(c, text, quoted);
    } else {
      HexEscaped(HexDigit(c as int / 16 % 16), HexDigit(c as int % 16), text, quoted);
    }
  }

  lemma HexEscaped(high: char, low: char, text: string, quoted: string)
    requires Escapes(text, quoted) && high !in "\"\\" && low !in "\"\\"
    ensures Escapes(['x', high, low] + text, ['\\', 'x', high, low] + quoted)
  {
    var text1, quoted1 := [low] + text, [low] + quoted;
    EscapesMore(low, text, quoted);
    var text2, quoted2 := [high] + text1, [high] + quoted1;
    EscapesMore(high, text1, quoted1);
    EscapesMore('x', text2, quoted2);
    assert ['x', high, low] + text == ['x'] + text2;
    assert ['\\', 'x', high, low] + quoted == ['\\', 'x'] + quoted2;
  }

  /** What the scanner hears is printable, so a name with any other byte never matches. */
  lemma {:induction false} HeardIsPrintable(word: string)
    ensures forall i :: 0 <= i < |Heard(word)| ==> Printable(Heard(word)[i])
  {
    if word != [] {
      HeardIsPrintable(word[1..]);
      assert forall i :: 0 <= i < |HeardByte(word[0])| ==> Printable(HeardByte(word[0])[i]);
    }
  }

  /** A word that Redis prints comes back unchanged if and only if all of its bytes are printable. */
  lemma {:induction false} RestoredIffPrintable(word: string)
    ensures Heard(word) == word <==> forall i :: 0 <= i < |word| ==> Printable(word[i])
  {
    if word != [] {
      var rest := word[1..];
      RestoredIffPrintable(rest);
      assert HeardByte(word[0])[0] == Heard(word)[0];
      assert forall i :: 0 <= i < |rest| ==> rest[i] == word[i + 1];
      if Printable(word[0]) {
        assert Heard(word)[1..] == Heard(rest);
        assert Heard(word) == word <==> Heard(rest) == rest;
        assert forall i :: 0 < i < |word| ==> word[i] == rest[i - 1];
      }
    }
  }

  function HeardWords(words: seq<string>): seq<string> {
    seq(|words|, i requires 0 <= i < |words| => Heard(words[i]))
  }

  /** A line of MONITOR: the words in quotes, with a space between them. */
  function Monitored(header: string, words: seq<string>): Command {
    Command(header, HeardWords(words),
            seq(|words|, i requires 0 <= i < |words| => Piece(if i == 0 then "" else " ", PrintedWord(words[i]))), "")
  }

  ghost predicate IsHeader(header: string) {
    "+" <= header && '\n' !in header && forall i: nat :: !BracketAt(header, i)
  }

  lemma {:induction false} WrittenOnOneLine(pieces: seq<Piece>, tail: string)
    requires '\n' !in tail && forall p | p in pieces :: '\n' !in p.gap && '\n' !in p.quoted
    ensures '\n' !in Written(pieces, tail)
    ensures forall p | p in pieces :: |Written(pieces, tail)| >= |p.quoted|
  {
    if pieces != [] {
      var p := pieces[0];
      assert p in pieces && pieces == [p] + pieces[1..];
      WrittenOnOneLine(pieces[1..], tail);
    }
  }

  /** What Redis prints is a command in the sense above, so that a session of such lines is captured
      as stated, each word as the scanner hears it. */
  lemma MonitoredIsWellFormed(header: string, words: seq<string>)
    requires IsHeader(header) && words != []
    ensures WellFormed(Monitored(header, words)) && Monitored(header, words).texts == HeardWords(words)
    ensures forall w | w in words :: |Printed(Monitored(header, words))| >= |w|
  {
    var c := Monitored(header, words);
    forall i | 0 <= i < |words|
      ensures Escapes(c.texts[i], c.pieces[i].quoted)
      ensures '\n' !in c.pieces[i].quoted && |c.pieces[i].quoted| >= |words[i]| && c.pieces[i] in c.pieces
    {
      PrintedIsEscaped(words[i]);
    }
    WrittenOnOneLine(c.pieces, "");
  }

  lemma MonitoredEntry(header: string, words: seq<string>, upper: string -> string)
    requires |words| >= 2
    ensures var entry := EntryOf(Monitored(header, words), upper);
      entry.command == upper(Heard(words[0])) && Key(entry) == Heard(words[1])
  {
  }

  /** A word that alone fills the scanner's buffer ends the capture: neither its command nor the one
      after it is seen, even where both touch a configured queue. */
  lemma LongWordEndsTheCapture(header: string, first: seq<string>, long: string, second: seq<string>,
                               queues: seq<string>, upper: string -> string)
    requires IsHeader(header) && long in first && |long| >= TOKEN_LIMIT && |second| >= 2
    requires upper(Heard(second[0])) == "LPUSH" && Heard(second[1]) in queues
    ensures var commands := [Monitored(header, first), Monitored(header, second)];
      && Relevant(EntryOf(commands[1], upper), queues)
      && Captured(Delivered(Session(commands)), queues, upper, Every) == []
  {
    var commands := [Monitored(header, first), Monitored(header, second)];
    MonitoredIsWellFormed(header, first);
    MonitoredIsWellFormed(header, second);
    MonitoredEntry(header, second, upper);
    OverlongComesFirst(commands, queues, upper);
  }

  lemma OverlongComesFirst(commands: seq<Command>, queues: seq<string>, upper: string -> string)
    requires forall c | c in commands :: c.texts != [] && WellFormed(c)
    requires commands != [] && Overlong(commands[0])
    ensures Captured(Delivered(Session(commands)), queues, upper, Every) == []
  {
    SessionIsCaptured(commands, queues, upper);
    assert Readable(commands) == [];
  }
}
