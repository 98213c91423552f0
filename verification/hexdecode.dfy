/** `load_hexdump_u8_little` of conv.py: reading `@ADDR HEX... // comment`
    lines into a zero-filled little-endian byte buffer. The input is the
    list of lines the file splits into. */
module HexDecode {
  import opened Text
  import opened Bytes
  import opened Results

  /** One decoded line: the bytes (already in memory order) and where they go. */
  datatype Record = Record(addr: nat, data: seq<Byte>)

  function End(r: Record): nat {
    r.addr + |r.data|
  }

  predicate Covers(r: Record, i: int) {
    r.addr <= i < End(r)
  }

  /** Length of the run of hex digits at the front of `s`. */
  function HexRun(s: string): (k: nat)
    ensures k <= |s| && AllHex(s[..k])
    ensures k < |s| ==> !IsHexDigit(s[k])
  {
    if |s| > 0 && IsHexDigit(s[0]) then 1 + HexRun(s[1..]) else 0
  }

  lemma {:induction false} HexRunOf(d: string, t: string)
    requires AllHex(d) && (|t| > 0 ==> !IsHexDigit(t[0]))
    ensures HexRun(d + t) == |d|
  {
    if |d| > 0 {
      assert (d + t)[1..] == d[1..] + t;
      HexRunOf(d[1..], t);
    } else {
      assert d + t == t;
    }
  }

  /** The outcome of the line pattern: the address digits (group 1) and the
      text after them, of which group 2 is everything but the leading and
      trailing whitespace. */
  datatype LineMatch = NoMatch | Matched(addrDigits: string, rest: string)

  /** `^\s*@([0-9A-Fa-f]+)\s+([0-9A-Fa-f\s]+)\s*$`. Group 1 must be the whole
      run of hex digits after `@`, because the next character has to be
      whitespace; the remainder must then be at least two characters (one
      for `\s+`, one for group 2), start with whitespace and hold nothing
      but hex digits and whitespace. */
  function MatchLine(s: string): (m: LineMatch)
    ensures m.Matched? ==> AllHex(m.addrDigits) && HexOrSpace(m.rest)
    ensures m.Matched? ==> |m.addrDigits| >= 1 && |m.rest| >= 2 && IsSpace(m.rest[0])
    ensures m.Matched? ==> TrimLeft(s) == "@" + m.addrDigits + m.rest
  {
    MatchTrimmed(TrimLeft(s))
  }

  /** The pattern after `^\s*`, on a line whose leading whitespace is gone. */
  function MatchTrimmed(t: string): (m: LineMatch)
    ensures m.Matched? ==> AllHex(m.addrDigits) && HexOrSpace(m.rest)
    ensures m.Matched? ==> |m.addrDigits| >= 1 && |m.rest| >= 2 && IsSpace(m.rest[0])
    ensures m.Matched? ==> t == "@" + m.addrDigits + m.rest
  {
    if |t| == 0 || t[0] != '@' then NoMatch
    else
      var k := HexRun(t[1..]);
      var rest := t[1 + k..];
      if k == 0 || |rest| < 2 || !IsSpace(rest[0]) || !HexOrSpace(rest) then NoMatch
      else
        assert t[1..][..k] == t[1..1 + k];
        assert t == "@" + t[1..1 + k] + rest;
        Matched(t[1..1 + k], rest)
  }

  /** Conversely, every line of the pattern's shape matches: any leading
      whitespace, `@`, one or more address digits and a rest of at least two
      characters that starts with whitespace and holds only hex digits and
      whitespace (spaces inside the data and trailing whitespace included). */
  lemma MatchLineOf(ws: string, d: string, rest: string)
    requires AllSpace(ws) && |d| >= 1 && AllHex(d)
    requires |rest| >= 2 && IsSpace(rest[0]) && HexOrSpace(rest)
    ensures MatchLine(ws + "@" + d + rest) == Matched(d, rest)
  {
    var core := "@" + d + rest;
    assert ws + "@" + d + rest == ws + core;
    LeadingSpaceIgnored(ws, core);
    MatchAt(d, rest);
  }

  /** The pattern only looks at the line after its leading whitespace. */
  lemma LeadingSpaceIgnored(ws: string, t: string)
    requires AllSpace(ws) && |t| > 0 && !IsSpace(t[0])
    ensures MatchLine(ws + t) == MatchLine(t)
  {
    TrimLeftAround(ws, t);
    TrimLeftAround("", t);
    assert "" + t == t;
  }

  lemma MatchAt(d: string, rest: string)
    requires |d| >= 1 && AllHex(d)
    requires |rest| >= 2 && IsSpace(rest[0]) && HexOrSpace(rest)
    ensures MatchLine("@" + d + rest) == Matched(d, rest)
  {
    var core := "@" + d + rest;
    assert TrimLeft(core) == core by {
      TrimLeftAround("", core);
      assert "" + core == core;
    }
    MatchTrimmedAt(d, rest);
  }

  lemma MatchTrimmedAt(d: string, rest: string)
    requires |d| >= 1 && AllHex(d)
    requires |rest| >= 2 && IsSpace(rest[0]) && HexOrSpace(rest)
    ensures MatchTrimmed("@" + d + rest) == Matched(d, rest)
  {
    var core := "@" + d + rest;
    assert HexRun(core[1..]) == |d| by {
      assert core[1..] == d + rest;
      HexRunOf(d, rest);
    }
    assert core[1 + |d|..] == rest && core[1..1 + |d|] == d;
  }

  /** A match splits the line into leading whitespace, `@`, one or more
      address digits and a rest that starts with whitespace and holds only
      hex digits and whitespace. */
  lemma MatchLineShape(s: string)
    ensures var m := MatchLine(s);
      m.Matched? ==>
      && |m.addrDigits| >= 1 && AllHex(m.addrDigits)
      && |m.rest| >= 2 && IsSpace(m.rest[0]) && HexOrSpace(m.rest)
      && |m.addrDigits| + |m.rest| < |s|
      && s[|s| - |m.rest| - |m.addrDigits| - 1..] == "@" + m.addrDigits + m.rest
      && AllSpace(s[..|s| - |m.rest| - |m.addrDigits| - 1])
  {
    var m := MatchLine(s);
    if m.Matched? {
      TrimmedSplit(s, m.addrDigits, m.rest);
    }
  }

  lemma TrimmedSplit(s: string, digits: string, rest: string)
    requires TrimLeft(s) == "@" + digits + rest
    ensures s[|s| - |rest| - |digits| - 1..] == "@" + digits + rest
    ensures AllSpace(s[..|s| - |rest| - |digits| - 1])
  {
    var t := TrimLeft(s);
    assert |s| - |rest| - |digits| - 1 == |s| - |t|;
  }

  /** A line with an odd digit count keeps its raw text for the error. */
  datatype LineResult = Skip | OddDigits(line: string) | Rec(record: Record)

  /** One line of the loop: cut the comment, strip, skip blank and
      non-matching lines, refuse an odd digit count, and turn the
      big-endian text of each 8-byte word into memory order. */
  function ParseLine(raw: string): (r: LineResult)
    ensures r.OddDigits? ==> r.line == raw
  {
    var line := Strip(BeforeComment(raw));
    if |line| == 0 then Skip
    else
      match MatchLine(line)
      case NoMatch => Skip
      case Matched(digits, rest) =>
        var hex := RemoveSpaces(rest);
        if |hex| % 2 != 0 then OddDigits(raw)
        else Rec(Record(ParseHex(digits), ReversePer8(FromHex(hex))))
  }

  /** A line that survives the cut and the strip unchanged and matches with
      an odd count of data digits is refused, naming the line. */
  lemma ParseLineOdd(raw: string, d: string, rest: string)
    requires |raw| > 0 && Strip(BeforeComment(raw)) == raw
    requires MatchLine(raw) == Matched(d, rest) && |RemoveSpaces(rest)| % 2 == 1
    ensures ParseLine(raw) == OddDigits(raw)
  {
  }

  /** Every line parsed on its own, in file order. */
  function ParseLines(lines: seq<string>): (rs: seq<LineResult>)
    ensures |rs| == |lines|
  {
    MapSeq(ParseLine, lines)
  }

  lemma ParseLinesAt(lines: seq<string>, i: nat)
    requires i < |lines|
    ensures ParseLines(lines)[i] == ParseLine(lines[i])
  {
    MapSeqAt(ParseLine, lines, i);
  }

  lemma ParseLinesCons(line: string, more: seq<string>)
    ensures ParseLines([line] + more) == [ParseLine(line)] + ParseLines(more)
  {
    MapSeqCons(ParseLine, line, more);
  }

  /** `f` applied to each element, in order. */
  function MapSeq<A, B>(f: A -> B, s: seq<A>): (r: seq<B>)
    ensures |r| == |s|
  {
    if |s| == 0 then [] else [f(s[0])] + MapSeq(f, s[1..])
  }

  lemma {:induction false} MapSeqAt<A, B>(f: A -> B, s: seq<A>, i: nat)
    requires i < |s|
    ensures MapSeq(f, s)[i] == f(s[i])
  {
    if i > 0 {
      MapSeqAt(f, s[1..], i - 1);
    }
  }

  lemma MapSeqCons<A, B>(f: A -> B, x: A, s: seq<A>)
    ensures MapSeq(f, [x] + s) == [f(x)] + MapSeq(f, s)
  {
    assert ([x] + s)[1..] == s;
  }

  /** Index of the first line with an odd digit count, or `|rs|`. */
  function FirstOdd(rs: seq<LineResult>): (k: nat)
    ensures k <= |rs|
    ensures forall j :: 0 <= j < k ==> !rs[j].OddDigits?
    ensures k < |rs| ==> rs[k].OddDigits?
  {
    if |rs| == 0 then 0
    else if rs[0].OddDigits? then 0
    else
      var k := FirstOdd(rs[1..]);
      assert forall j :: 1 <= j < |rs| ==> rs[j] == rs[1..][j - 1];
      1 + k
  }

  /** The records of the matching lines, in file order. */
  function RecordsIn(rs: seq<LineResult>): seq<Record> {
    if |rs| == 0 then []
    else
      match rs[0]
      case Rec(r) => [r] + RecordsIn(rs[1..])
      case _ => RecordsIn(rs[1..])
  }

  /** The loop of `load_hexdump_u8_little` over the parsed lines: it stops
      at the first line with an odd digit count. */
  function Collect(rs: seq<LineResult>): Result<seq<Record>> {
    if |rs| == 0 then Ok([])
    else
      match rs[0]
      case OddDigits(line) => Err(OddHexDigits(line))
      case Skip => Collect(rs[1..])
      case Rec(rec) =>
        var rest :- Collect(rs[1..]);
        Ok([rec] + rest)
  }

  /** The loop over the lines of a file. */
  function ParseAll(lines: seq<string>): Result<seq<Record>> {
    Collect(ParseLines(lines))
  }

  /** The loop fails exactly when some line has an odd digit count, naming
      that first line; otherwise it yields the records of all matching
      lines in file order. */
  lemma {:induction false} CollectOutcome(rs: seq<LineResult>)
    ensures Collect(rs).Err? <==> FirstOdd(rs) < |rs|
    ensures Collect(rs).Err? ==> Collect(rs).error == OddHexDigits(rs[FirstOdd(rs)].line)
    ensures Collect(rs).Ok? ==> Collect(rs).value == RecordsIn(rs)
  {
    if |rs| > 0 {
      CollectOutcome(rs[1..]);
    }
  }

  /** `CollectOutcome` for the lines of a file: the error names the raw
      text of the first odd line. */
  lemma ParseAllOutcome(lines: seq<string>)
    ensures var rs := ParseLines(lines);
      && (ParseAll(lines).Err? <==> FirstOdd(rs) < |lines|)
      && (ParseAll(lines).Err? ==> ParseAll(lines).error == OddHexDigits(lines[FirstOdd(rs)]))
      && (ParseAll(lines).Ok? ==> ParseAll(lines).value == RecordsIn(rs))
  {
    var rs := ParseLines(lines);
    CollectOutcome(rs);
    if FirstOdd(rs) < |lines| {
      ParseLinesAt(lines, FirstOdd(rs));
    }
  }

  /** A record line in front of lines that parse cleanly adds its record at the front. */
  lemma ParseAllCons(line: string, more: seq<string>, r: Record)
    requires ParseLine(line) == Rec(r) && ParseAll(more).Ok?
    ensures ParseAll([line] + more) == Ok([r] + ParseAll(more).value)
  {
    ParseLinesCons(line, more);
    CollectRec(r, ParseLines(more));
  }

  lemma CollectRec(r: Record, rs: seq<LineResult>)
    requires Collect(rs).Ok?
    ensures Collect([Rec(r)] + rs) == Ok([r] + Collect(rs).value)
  {
    assert ([Rec(r)] + rs)[1..] == rs;
  }

  lemma CollectSkip(rs: seq<LineResult>)
    ensures Collect([Skip] + rs) == Collect(rs)
  {
    assert ([Skip] + rs)[1..] == rs;
  }

  /** No character of `s` is `@`. */
  predicate NoAt(s: string) {
    forall i :: 0 <= i < |s| ==> s[i] != '@'
  }

  /** A line whose text before any `//` holds no `@` (a blank line, a
      comment line, any other text) is skipped. */
  lemma LineWithoutAtSkipped(raw: string)
    requires NoAt(BeforeComment(raw))
    ensures ParseLine(raw) == Skip
  {
    var line := Strip(BeforeComment(raw));
    StripNoAt(BeforeComment(raw));
    NoAtNoMatch(line);
  }

  lemma StripNoAt(s: string)
    requires NoAt(s)
    ensures NoAt(Strip(s))
  {
    var t := TrimLeft(s);
    forall i | 0 <= i < |t|
      ensures t[i] != '@'
    {
      assert t[i] == s[|s| - |t| + i];
    }
    var r := TrimRight(t);
    forall i | 0 <= i < |r|
      ensures r[i] != '@'
    {
      assert r[i] == t[i];
    }
  }

  lemma NoAtNoMatch(s: string)
    requires NoAt(s)
    ensures MatchLine(s) == NoMatch
  {
    var t := TrimLeft(s);
    assert forall i :: 0 <= i < |t| ==> t[i] == s[|s| - |t| + i];
  }

  /** A skipped line in front of other lines changes nothing. */
  lemma SkippedLineIgnored(line: string, more: seq<string>)
    requires ParseLine(line) == Skip
    ensures ParseAll([line] + more) == ParseAll(more)
    ensures Load([line] + more) == Load(more)
  {
    ParseLinesCons(line, more);
    CollectSkip(ParseLines(more));
    assert ParseAll([line] + more) == ParseAll(more);
  }

  /** `max_end`: the largest `addr + len` over the records (0 for none). */
  function MaxEnd(recs: seq<Record>): (m: nat)
    ensures forall k :: 0 <= k < |recs| ==> End(recs[k]) <= m
    ensures |recs| > 0 ==> exists k :: 0 <= k < |recs| && End(recs[k]) == m
    ensures |recs| == 0 ==> m == 0
  {
    if |recs| == 0 then 0
    else
      var m := MaxEnd(recs[1..]);
      assert forall k :: 1 <= k < |recs| ==> recs[k] == recs[1..][k - 1];
      if End(recs[0]) > m then End(recs[0]) else m
  }

  /** `buf[addr:addr+len] = data` for a record that fits. */
  function Write(buf: seq<Byte>, r: Record): (b: seq<Byte>)
    requires End(r) <= |buf|
    ensures |b| == |buf|
  {
    buf[..r.addr] + r.data + buf[End(r)..]
  }

  predicate FitsIn(recs: seq<Record>, n: nat) {
    forall k :: 0 <= k < |recs| ==> End(recs[k]) <= n
  }

  /** The records written one after the other, in file order. */
  function WriteAll(buf: seq<Byte>, recs: seq<Record>): (b: seq<Byte>)
    requires FitsIn(recs, |buf|)
    ensures |b| == |buf|
    decreases |recs|
  {
    if |recs| == 0 then buf
    else
      assert End(recs[0]) <= |buf|;
      WriteAll(Write(buf, recs[0]), recs[1..])
  }

  /** The zero-filled buffer of `max_end` bytes with every record written. */
  function Build(recs: seq<Record>): seq<Byte> {
    WriteAll(ZeroBytes(MaxEnd(recs)), recs)
  }

  /** `load_hexdump_u8_little` on the lines of a file. */
  function Load(lines: seq<string>): (r: Result<seq<Byte>>)
    ensures r.Err? ==> r.error.OddHexDigits? || r.error == NoRecords
    ensures r.Err? && r.error.OddHexDigits? ==> r.error.line in lines
  {
    ParseAllOutcome(lines);
    var recs :- ParseAll(lines);
    if |recs| == 0 then Err(NoRecords) else Ok(Build(recs))
  }

  /** `load_hexdump_u8_little(path)` on the decoded text of the file, which
      it cuts with `splitlines()`. */
  function LoadFile(text: string): Result<seq<Byte>> {
    Load(SplitLines(text))
  }

  /** A file written one boundary-free line at a time loads as its lines. */
  lemma FileOfLines(lines: seq<string>)
    requires forall k :: 0 <= k < |lines| ==> NoLineBreak(lines[k])
    ensures LoadFile(WriteLines(lines)) == Load(lines)
  {
    SplitWrittenLines(lines);
  }

  /** Loading fails on the first odd line, or with no record at all;
      otherwise the buffer is `max_end` bytes long with every record
      written in file order. */
  lemma LoadOutcome(lines: seq<string>)
    ensures var rs := ParseLines(lines);
      && (Load(lines).Err? <==> FirstOdd(rs) < |lines| || |RecordsIn(rs)| == 0)
      && (FirstOdd(rs) < |lines| ==> Load(lines) == Err(OddHexDigits(lines[FirstOdd(rs)])))
      && (FirstOdd(rs) == |lines| && |RecordsIn(rs)| == 0 ==> Load(lines) == Err(NoRecords))
      && (Load(lines).Ok? ==> |Load(lines).value| == MaxEnd(RecordsIn(rs)))
      && (Load(lines).Ok? ==> Load(lines).value == Build(RecordsIn(rs)))
  {
    ParseAllOutcome(lines);
  }

  /** Bytes no record covers stay zero... */
  lemma {:induction false} WriteAllUntouched(buf: seq<Byte>, recs: seq<Record>, i: nat)
    requires FitsIn(recs, |buf|) && i < |buf|
    requires forall k :: 0 <= k < |recs| ==> !Covers(recs[k], i)
    ensures WriteAll(buf, recs)[i] == buf[i]
    decreases |recs|
  {
    if |recs| > 0 {
      assert !Covers(recs[0], i);
      var b := Write(buf, recs[0]);
      assert b[i] == buf[i];
      assert forall k :: 0 <= k < |recs| - 1 ==> recs[1..][k] == recs[k + 1];
      WriteAllUntouched(b, recs[1..], i);
    }
  }

  /** ...and a covered byte holds the value of the last record covering it. */
  lemma {:induction false} WriteAllLastWins(buf: seq<Byte>, recs: seq<Record>, k: nat, i: nat)
    requires FitsIn(recs, |buf|) && k < |recs| && Covers(recs[k], i)
    requires forall j :: k < j < |recs| ==> !Covers(recs[j], i)
    ensures i < |buf| && WriteAll(buf, recs)[i] == recs[k].data[i - recs[k].addr]
    decreases |recs|
  {
    assert End(recs[k]) <= |buf|;
    var b := Write(buf, recs[0]);
    assert forall j :: 0 <= j < |recs| - 1 ==> recs[1..][j] == recs[j + 1];
    if k == 0 {
      assert b[i] == recs[0].data[i - recs[0].addr];
      WriteAllUntouched(b, recs[1..], i);
    } else {
      WriteAllLastWins(b, recs[1..], k - 1, i);
    }
  }

  /** In a built buffer (the value `Load` returns for the records of its
      lines), a byte no record covers is 0. */
  lemma BuildUnwrittenIsZero(recs: seq<Record>, i: nat)
    requires i < |Build(recs)|
    requires forall k :: 0 <= k < |recs| ==> !Covers(recs[k], i)
    ensures Build(recs)[i] == 0
  {
    WriteAllUntouched(ZeroBytes(MaxEnd(recs)), recs, i);
  }

  /** In a built buffer, a covered byte comes from the last record that
      covers it: later lines overwrite earlier ones. */
  lemma BuildLastWriteWins(recs: seq<Record>, k: nat, i: nat)
    requires k < |recs| && Covers(recs[k], i)
    requires forall j :: k < j < |recs| ==> !Covers(recs[j], i)
    ensures i < |Build(recs)| && Build(recs)[i] == recs[k].data[i - recs[k].addr]
  {
    WriteAllLastWins(ZeroBytes(MaxEnd(recs)), recs, k, i);
  }
}
