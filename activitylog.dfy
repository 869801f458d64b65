/** The tiered activity log of main.cpp: entries go to the CSV file on the SD card when
    the card is ready and the file opens, otherwise into a five-slot RAM ring; the file
    is trimmed to its last fifty entries after each append; the `/api/logs` handler
    reads back newest first and `/api/logs/clear` empties both tiers.

    The SD file is modelled as the sequence of its lines (the first is the header), or
    as absent. Whether each open succeeds is an input of the call (`Io`). */
module ActivityLog {
  import opened Rings
  import opened Text
  import opened Clock

  const MaxRamLogs := 5
  const MaxSdLogs := 50
  const MaxReadLines := 500           // the query reads at most this many data lines
  const DefaultLimit := 100           // the query's limit when none is given
  const Header := "timestamp,username,action,success,confidence"

  datatype Option<T> = None | Some(value: T)

  /** One log record; the confidence is kept in hundredths, as it is printed. */
  datatype Entry = Entry(username: string, action: string, success: bool, confidence: nat,
                         timestamp: Millis)

  /** The log file on the card: absent, or present with its lines, header first. */
  datatype File = Absent | Present(lines: seq<string>)

  /** Whether the append, read and write opens of one call succeed. */
  datatype Io = Io(appendOpens: bool, readOpens: bool, writeOpens: bool)

  /** Everything the log keeps: whether the card mounted, the file, the RAM ring. */
  datatype LogState = LogState(sdReady: bool, file: File, ram: Ring<Entry>)

  predicate LogValid(st: LogState) {
    RingValid(st.ram, MaxRamLogs)
  }

  // ---------------------------------------------------------------------------
  // The CSV line
  // ---------------------------------------------------------------------------

  /** The five comma-separated fields of a line, as text. */
  datatype Fields = Fields(ts: string, user: string, action: string, success: string, conf: string)

  predicate NoComma(s: string) {
    forall i :: 0 <= i < |s| ==> s[i] != ','
  }

  /** A field followed by a comma and the rest of the line. */
  function Field(a: string, rest: string): string {
    a + [','] + rest
  }

  function Join(f: Fields): string {
    Field(f.ts, Field(f.user, Field(f.action, Field(f.success, f.conf))))
  }

  /** The fields `logActivity` prints with `"%lu,%s,%s,%d,%.2f"`. */
  function EntryFields(e: Entry): Fields {
    Fields(NatToString(e.timestamp), e.username, e.action, if e.success then "1" else "0",
           CentiToString(e.confidence))
  }

  function FormatLine(e: Entry): string {
    Join(EntryFields(e))
  }

  /** The positions of the first four commas, each searched with `indexOf` from just
      after the previous one (from 0 again when the previous one is missing). */
  datatype Commas = Commas(p1: int, p2: int, p3: int, p4: int)

  function FindCommas(line: string): Commas {
    var p1 := IndexOf(line, ',', 0);
    var p2 := IndexOf(line, ',', p1 + 1);
    var p3 := IndexOf(line, ',', p2 + 1);
    var p4 := IndexOf(line, ',', p3 + 1);
    Commas(p1, p2, p3, p4)
  }

  /** The query's acceptance test: all four positions greater than zero. */
  predicate Accepted(c: Commas) {
    c.p1 > 0 && c.p2 > 0 && c.p3 > 0 && c.p4 > 0
  }

  /** Accepted positions are four distinct commas, in order, none at the start. */
  lemma AcceptedOrdered(line: string)
    requires Accepted(FindCommas(line))
    ensures var c := FindCommas(line); 0 < c.p1 < c.p2 < c.p3 < c.p4 < |line|
    ensures var c := FindCommas(line);
      line[c.p1] == ',' && line[c.p2] == ',' && line[c.p3] == ',' && line[c.p4] == ','
  {
    var c := FindCommas(line);
    IndexOfFound(line, ',', 0);
    IndexOfFound(line, ',', c.p1 + 1);
    IndexOfFound(line, ',', c.p2 + 1);
    IndexOfFound(line, ',', c.p3 + 1);
  }

  /** The query's five-field split; the last field runs to the end of the line. */
  function Split(line: string): Option<Fields>
  {
    var c := FindCommas(line);
    if Accepted(c) then
      AcceptedOrdered(line);
      Some(Fields(line[..c.p1], line[c.p1 + 1..c.p2], line[c.p2 + 1..c.p3], line[c.p3 + 1..c.p4],
                  line[c.p4 + 1..]))
    else None
  }

  /** `indexOf` finds the first comma it reaches. */
  lemma {:induction false} IndexOfFirst(s: string, from: nat, k: nat)
    requires from <= k < |s| && s[k] == ','
    requires forall i :: from <= i < k ==> s[i] != ','
    ensures IndexOf(s, ',', from) == k
    decreases k - from
  {
    if from < k {
      IndexOfFirst(s, from + 1, k);
    }
  }

  /** What lies between a search start and the comma found holds no comma. */
  lemma NoCommaBefore(line: string, from: nat)
    requires IndexOf(line, ',', from) != -1
    ensures NoComma(line[from..IndexOf(line, ',', from)])
  {
    var k := IndexOf(line, ',', from);
    IndexOfFound(line, ',', from);
    IndexOfSkipsNone(line, ',', from);
    forall i | 0 <= i < k - from
      ensures line[from..k][i] != ','
    {
      assert line[from..k][i] == line[from + i];
    }
  }

  /** The text from `from` on, cut at the comma at `k`. */
  lemma CutAtComma(line: string, from: nat, k: nat)
    requires from <= k < |line| && line[k] == ','
    ensures line[from..] == Field(line[from..k], line[k + 1..])
  {
  }

  /** A field and the rest are recovered by slicing around the comma that follows it,
      wherever in a line the field starts. */
  lemma FieldAt(line: string, i: nat, a: string, rest: string)
    requires i <= |line| && line[i..] == Field(a, rest)
    ensures i + |a| < |line| && line[i + |a|] == ','
    ensures line[i..i + |a|] == a && line[i + |a| + 1..] == rest
  {
    var s := line[i..];
    assert s[..|a|] == a && s[|a|] == ',' && s[|a| + 1..] == rest;
    assert line[i..i + |a|] == s[..|a|];
    assert line[i + |a| + 1..] == s[|a| + 1..];
  }

  /** The second field of `a, b, rest` and what follows its comma. */
  lemma SecondField(a: string, b: string, rest: string)
    ensures var line, p2 := Field(a, Field(b, rest)), |a| + 1 + |b|;
      p2 < |line| && line[p2] == ',' && line[|a| + 1..p2] == b && line[p2 + 1..] == rest
  {
    var line := Field(a, Field(b, rest));
    assert line[|a| + 1..] == Field(b, rest);
    FieldAt(line, |a| + 1, b, rest);
  }

  /** The third field of `a, b, c, rest` and what follows its comma. */
  lemma ThirdField(a: string, b: string, c: string, rest: string)
    ensures var line, p2 := Field(a, Field(b, Field(c, rest))), |a| + 1 + |b|;
      var p3 := p2 + 1 + |c|;
      p3 < |line| && line[p3] == ',' && line[p2 + 1..p3] == c && line[p3 + 1..] == rest
  {
    var line := Field(a, Field(b, Field(c, rest)));
    SecondField(a, b, Field(c, rest));
    FieldAt(line, |a| + 1 + |b| + 1, c, rest);
  }

  /** The fourth field of `a, b, c, d, e` and the fifth, after its comma. */
  lemma FourthField(a: string, b: string, c: string, d: string, e: string)
    ensures var line, p3 := Field(a, Field(b, Field(c, Field(d, e)))), |a| + 1 + |b| + 1 + |c|;
      var p4 := p3 + 1 + |d|;
      p4 < |line| && line[p4] == ',' && line[p3 + 1..p4] == d && line[p4 + 1..] == e
  {
    var line := Field(a, Field(b, Field(c, Field(d, e))));
    ThirdField(a, b, c, Field(d, e));
    FieldAt(line, |a| + 1 + |b| + 1 + |c| + 1, d, e);
  }

  /** The text between the commas of `a, b, c, d, e` is the five fields. */
  lemma FourSlices(a: string, b: string, c: string, d: string, e: string)
    ensures var line, p1 := Field(a, Field(b, Field(c, Field(d, e)))), |a|;
      var p2 := p1 + 1 + |b|;
      var p3 := p2 + 1 + |c|;
      var p4 := p3 + 1 + |d|;
      && p4 < |line|
      && line[p1] == ',' && line[p2] == ',' && line[p3] == ',' && line[p4] == ','
      && line[..p1] == a && line[p1 + 1..p2] == b && line[p2 + 1..p3] == c
      && line[p3 + 1..p4] == d && line[p4 + 1..] == e
  {
    var line := Field(a, Field(b, Field(c, Field(d, e))));
    assert line[|a|] == ',' && line[..|a|] == a;
    SecondField(a, b, Field(c, Field(d, e)));
    ThirdField(a, b, c, Field(d, e));
    FourthField(a, b, c, d, e);
  }

  /** The first comma of `a, rest` is the one after `a`, when `a` holds none. */
  lemma FirstComma(a: string, rest: string)
    requires NoComma(a)
    ensures IndexOf(Field(a, rest), ',', 0) == |a|
  {
    IndexOfFirst(Field(a, rest), 0, |a|);
  }

  /** The characters of `a, rest`: those of `a`, the comma, those of `rest`. */
  lemma FieldIndex(a: string, rest: string, i: int)
    requires 0 <= i < |a| + 1 + |rest|
    ensures Field(a, rest)[i] == if i < |a| then a[i] else if i == |a| then ',' else rest[i - |a| - 1]
  {
  }

  /** Searching `a, b, rest` after the first comma finds the one after `b`. */
  lemma SecondComma(a: string, b: string, rest: string)
    requires NoComma(b)
    ensures IndexOf(Field(a, Field(b, rest)), ',', |a| + 1) == |a| + 1 + |b|
  {
    var r1 := Field(b, rest);
    var p := |a| + 1;
    forall i | p <= i < p + |b|
      ensures Field(a, r1)[i] != ','
    {
      FieldIndex(a, r1, i);
      FieldIndex(b, rest, i - |a| - 1);
    }
    assert Field(a, r1)[p + |b|] == ',' by {
      FieldIndex(a, r1, p + |b|);
      FieldIndex(b, rest, |b|);
    }
    IndexOfFirst(Field(a, r1), p, p + |b|);
  }

  /** Searching `a, b, c, rest` after the second comma finds the one after `c`. */
  lemma ThirdComma(a: string, b: string, c: string, rest: string)
    requires NoComma(c)
    ensures var p2 := |a| + 1 + |b|;
      IndexOf(Field(a, Field(b, Field(c, rest))), ',', p2 + 1) == p2 + 1 + |c|
  {
    var r2 := Field(c, rest);
    var r1 := Field(b, r2);
    var p := |a| + 1 + |b| + 1;
    forall i | p <= i <= p + |c|
      ensures Field(a, r1)[i] == if i < p + |c| then c[i - p] else ','
    {
      FieldIndex(a, r1, i);
      FieldIndex(b, r2, i - |a| - 1);
      FieldIndex(c, rest, i - p);
    }
    IndexOfFirst(Field(a, r1), p, p + |c|);
  }

  /** Searching `a, b, c, d, e` after the third comma finds the one after `d`. */
  lemma FourthComma(a: string, b: string, c: string, d: string, e: string)
    requires NoComma(d)
    ensures var p3 := |a| + 1 + |b| + 1 + |c|;
      IndexOf(Field(a, Field(b, Field(c, Field(d, e)))), ',', p3 + 1) == p3 + 1 + |d|
  {
    var r3 := Field(d, e);
    var r2 := Field(c, r3);
    var r1 := Field(b, r2);
    var p := |a| + 1 + |b| + 1 + |c| + 1;
    forall i | p <= i <= p + |d|
      ensures Field(a, r1)[i] == if i < p + |d| then d[i - p] else ','
    {
      FieldIndex(a, r1, i);
      FieldIndex(b, r2, i - |a| - 1);
      FieldIndex(c, r3, i - |a| - 1 - |b| - 1);
      FieldIndex(d, e, i - p);
    }
    IndexOfFirst(Field(a, r1), p, p + |d|);
  }

  /** The first four commas of `a, b, c, d, e`: one after each of the first four. */
  lemma FourCommas(a: string, b: string, c: string, d: string, e: string)
    requires NoComma(a) && NoComma(b) && NoComma(c) && NoComma(d)
    ensures var line, p1 := Field(a, Field(b, Field(c, Field(d, e)))), |a|;
      var p2 := p1 + 1 + |b|;
      var p3 := p2 + 1 + |c|;
      && IndexOf(line, ',', 0) == p1
      && IndexOf(line, ',', p1 + 1) == p2
      && IndexOf(line, ',', p2 + 1) == p3
      && IndexOf(line, ',', p3 + 1) == p3 + 1 + |d|
  {
    FirstComma(a, Field(b, Field(c, Field(d, e))));
    SecondComma(a, b, Field(c, Field(d, e)));
    ThirdComma(a, b, c, Field(d, e));
    FourthComma(a, b, c, d, e);
  }

  /** The split of a line whose four commas have been located. */
  lemma SplitAt(line: string, p1: int, p2: int, p3: int, p4: int,
                a: string, b: string, c: string, d: string, e: string)
    requires 0 < p1 < p2 < p3 < p4 < |line|
    requires IndexOf(line, ',', 0) == p1 && IndexOf(line, ',', p1 + 1) == p2
    requires IndexOf(line, ',', p2 + 1) == p3 && IndexOf(line, ',', p3 + 1) == p4
    requires line[..p1] == a && line[p1 + 1..p2] == b && line[p2 + 1..p3] == c
    requires line[p3 + 1..p4] == d && line[p4 + 1..] == e
    ensures Split(line) == Some(Fields(a, b, c, d, e))
  {
    CommasAt(line, p1, p2, p3, p4);
  }

  lemma CommasAt(line: string, p1: int, p2: int, p3: int, p4: int)
    requires 0 < p1 < p2 < p3 < p4 < |line|
    requires IndexOf(line, ',', 0) == p1 && IndexOf(line, ',', p1 + 1) == p2
    requires IndexOf(line, ',', p2 + 1) == p3 && IndexOf(line, ',', p3 + 1) == p4
    ensures FindCommas(line) == Commas(p1, p2, p3, p4) && Accepted(FindCommas(line))
  {
  }

  /** Splitting `a, b, c, d, e` gives back the five fields when the first four hold no
      comma and the first is not empty. */
  lemma SplitFive(a: string, b: string, c: string, d: string, e: string)
    requires |a| > 0 && NoComma(a) && NoComma(b) && NoComma(c) && NoComma(d)
    ensures Split(Field(a, Field(b, Field(c, Field(d, e))))) == Some(Fields(a, b, c, d, e))
  {
    FourCommas(a, b, c, d, e);
    FourSlices(a, b, c, d, e);
    var p3 := |a| + 1 + |b| + 1 + |c|;
    SplitAt(Field(a, Field(b, Field(c, Field(d, e)))), |a|, |a| + 1 + |b|, p3, p3 + 1 + |d|,
            a, b, c, d, e);
  }

  /** Splitting a joined line gives back its fields, provided no field but the last
      holds a comma and the timestamp is not empty. */
  lemma JoinSplit(f: Fields)
    requires |f.ts| > 0
    requires NoComma(f.ts) && NoComma(f.user) && NoComma(f.action) && NoComma(f.success)
    ensures Split(Join(f)) == Some(f)
  {
    SplitFive(f.ts, f.user, f.action, f.success, f.conf);
  }

  /** A line with commas at `p1 < p2 < p3 < p4` is the join of the text around them. */
  lemma CutsJoin(line: string, p1: int, p2: int, p3: int, p4: int)
    requires 0 < p1 < p2 < p3 < p4 < |line|
    requires line[p1] == ',' && line[p2] == ',' && line[p3] == ',' && line[p4] == ','
    ensures line == Field(line[..p1], Field(line[p1 + 1..p2], Field(line[p2 + 1..p3],
                      Field(line[p3 + 1..p4], line[p4 + 1..]))))
  {
    var r3 := line[p3 + 1..];
    assert r3 == Field(line[p3 + 1..p4], line[p4 + 1..]) by { CutAtComma(line, p3 + 1, p4); }
    var r2 := line[p2 + 1..];
    assert r2 == Field(line[p2 + 1..p3], r3) by { CutAtComma(line, p2 + 1, p3); }
    var r1 := line[p1 + 1..];
    assert r1 == Field(line[p1 + 1..p2], r2) by { CutAtComma(line, p1 + 1, p2); }
    assert line == Field(line[..p1], r1) by {
      CutAtComma(line, 0, p1);
      assert line[0..] == line && line[0..p1] == line[..p1];
    }
  }

  /** Conversely, a line the split accepts is exactly the join of its fields. */
  lemma SplitJoin(line: string)
    requires Split(line).Some?
    ensures Join(Split(line).value) == line
  {
    var c := FindCommas(line);
    AcceptedOrdered(line);
    var p1, p2, p3, p4 := c.p1, c.p2, c.p3, c.p4;
    var f := Fields(line[..p1], line[p1 + 1..p2], line[p2 + 1..p3], line[p3 + 1..p4], line[p4 + 1..]);
    assert Split(line) == Some(f);
    assert Join(f) == line by { CutsJoin(line, p1, p2, p3, p4); }
  }

  /** The first four fields of an accepted line hold no comma, and the first is not
      empty. */
  lemma SplitFieldsNoComma(line: string)
    requires Split(line).Some?
    ensures var f := Split(line).value;
      |f.ts| > 0 && NoComma(f.ts) && NoComma(f.user) && NoComma(f.action) && NoComma(f.success)
  {
    var c := FindCommas(line);
    AcceptedOrdered(line);
    var f := Split(line).value;
    assert NoComma(f.ts) by {
      NoCommaBefore(line, 0);
      assert line[0..c.p1] == line[..c.p1];
    }
    assert NoComma(f.user) by { NoCommaBefore(line, c.p1 + 1); }
    assert NoComma(f.action) by { NoCommaBefore(line, c.p2 + 1); }
    assert NoComma(f.success) by { NoCommaBefore(line, c.p3 + 1); }
  }

  /** A record as `/api/logs` reports it: both tiers print the same five members. */
  datatype LogView = LogView(username: string, status: string, success: bool,
                             confidence: string, timestamp: string)

  /** An SD line's record: the success field reads true only when it is exactly "1". */
  function ParseView(line: string): Option<LogView>
  {
    match Split(line)
    case None => None
    case Some(f) => Some(LogView(f.user, f.action, f.success == "1", f.conf, f.ts))
  }

  /** A RAM entry's record: `String(confidence, 2)` and `String(timestamp)`. */
  function EntryView(e: Entry): LogView {
    LogView(e.username, e.action, e.success, CentiToString(e.confidence), NatToString(e.timestamp))
  }

  /** `a, b, c, d, e` is tidy when `a` starts and `e` ends with a character that is not
      white space. */
  lemma JoinTidy(a: string, b: string, c: string, d: string, e: string)
    requires |a| > 0 && |e| > 0 && !IsSpace(a[0]) && !IsSpace(e[|e| - 1])
    ensures Tidy(Field(a, Field(b, Field(c, Field(d, e)))))
  {
    var line := Field(a, Field(b, Field(c, Field(d, e))));
    assert line[0] == a[0];
    assert line[|line| - 1] == e[|e| - 1];
  }

  /** The timestamp printed with `%lu` holds no comma. */
  lemma DecimalNoComma(n: nat)
    ensures NoComma(NatToString(n))
  {
    var ts := NatToString(n);
    forall i | 0 <= i < |ts|
      ensures ts[i] != ','
    {
      assert IsDigit(ts[i]);
    }
  }

  /** A formatted line starts with the timestamp's first digit and ends with the
      confidence's last digit, so `trim` leaves it as it is. */
  lemma FormatTidy(e: Entry)
    ensures Tidy(FormatLine(e)) && Trim(FormatLine(e)) == FormatLine(e)
  {
    var ts := NatToString(e.timestamp);
    var conf := CentiToString(e.confidence);
    assert IsDigit(ts[0]) && IsDigit(conf[|conf| - 1]);
    JoinTidy(ts, e.username, e.action, if e.success then "1" else "0", conf);
    TrimTidy(FormatLine(e));
  }

  /** The query splits a formatted line back into the five fields printed. */
  lemma FormatSplits(e: Entry)
    requires NoComma(e.username) && NoComma(e.action)
    ensures Split(FormatLine(e)) == Some(EntryFields(e))
  {
    DecimalNoComma(e.timestamp);
    SplitFive(NatToString(e.timestamp), e.username, e.action, if e.success then "1" else "0",
              CentiToString(e.confidence));
  }

  /** Direction one of the line format: a logged entry whose user and action hold no
      comma reads back from the card as the record the RAM tier would report. */
  lemma FormatThenParse(e: Entry)
    requires NoComma(e.username) && NoComma(e.action)
    ensures Tidy(FormatLine(e)) && Trim(FormatLine(e)) == FormatLine(e)
    ensures ParseView(FormatLine(e)) == Some(EntryView(e))
  {
    FormatTidy(e);
    FormatSplits(e);
  }

  // ---------------------------------------------------------------------------
  // Reading the file back
  // ---------------------------------------------------------------------------

  /** A line as `trim()` leaves it and the reading loops keep it: not empty, no white
      space at either end. */
  predicate Tidy(s: string) {
    s != [] && !IsSpace(s[0]) && !IsSpace(s[|s| - 1])
  }

  /** Each line as `readStringUntil('\n')` followed by `trim()` yields it, dropped when
      that is empty: both reading loops keep exactly these. */
  function Clean(lines: seq<string>): (r: seq<string>)
    ensures |r| <= |lines|
  {
    if lines == [] then []
    else
      var t := Trim(lines[|lines| - 1]);
      Clean(lines[..|lines| - 1]) + (if t == [] then [] else [t])
  }

  lemma {:induction false} CleanAppend(a: seq<string>, b: seq<string>)
    ensures Clean(a + b) == Clean(a) + Clean(b)
    decreases |b|
  {
    if b != [] {
      var b' := b[..|b| - 1];
      assert (a + b)[..|a + b| - 1] == a + b';
      assert (a + b)[|a + b| - 1] == b[|b| - 1];
      CleanAppend(a, b');
    } else {
      assert a + b == a;
    }
  }

  /** Every line a reader keeps is tidy. */
  lemma {:induction false} CleanIsTidy(lines: seq<string>)
    ensures forall i :: 0 <= i < |Clean(lines)| ==> Tidy(Clean(lines)[i])
    decreases |lines|
  {
    if lines != [] {
      var prefix, t := Clean(lines[..|lines| - 1]), Trim(lines[|lines| - 1]);
      CleanIsTidy(lines[..|lines| - 1]);
      TrimShape(lines[|lines| - 1]);
      var r := prefix + (if t == [] then [] else [t]);
      assert Clean(lines) == r;
      forall i | 0 <= i < |r|
        ensures Tidy(r[i])
      {
        if i < |prefix| {
          assert r[i] == prefix[i];
          assert Tidy(prefix[i]);
        } else {
          assert t != [];
          assert r[i] == t;
          assert Tidy(t);
        }
      }
    }
  }

  /** One more line read: kept trimmed when it is not blank. */
  lemma CleanSnoc(raw: seq<string>, pos: nat)
    requires 1 <= pos < |raw|
    ensures var t := Trim(raw[pos]);
      Clean(raw[1..pos + 1]) == Clean(raw[1..pos]) + (if |t| == 0 then [] else [t])
  {
    assert raw[1..pos + 1][..pos - 1] == raw[1..pos];
  }

  /** A reader that stops after `cap` kept lines, or at the end of the file, holds the
      first `cap` data lines. */
  lemma ReadStopped(raw: seq<string>, pos: nat, cap: nat)
    requires 1 <= pos <= |raw|
    requires var read := Clean(raw[1..pos]); |read| <= cap && (pos == |raw| || |read| == cap)
    ensures var data := DataLines(raw);
      Clean(raw[1..pos]) == if |data| <= cap then data else data[..cap]
  {
    assert raw[1..] == raw[1..pos] + raw[pos..];
    CleanAppend(raw[1..pos], raw[pos..]);
    if pos == |raw| {
      assert raw[pos..] == [];
    }
  }

  /** Lines that are already trimmed and non-empty read back unchanged. */
  lemma {:induction false} CleanTidy(lines: seq<string>)
    requires forall i :: 0 <= i < |lines| ==> Tidy(lines[i])
    ensures Clean(lines) == lines
    decreases |lines|
  {
    if lines != [] {
      var last := lines[|lines| - 1];
      TrimTidy(last);
      CleanTidy(lines[..|lines| - 1]);
      assert lines == lines[..|lines| - 1] + [last];
    }
  }

  /** The first line as read for the header: untrimmed, empty for an empty file. */
  function HeaderLine(lines: seq<string>): string {
    if lines == [] then [] else lines[0]
  }

  /** The data lines a reader keeps, after skipping the header. */
  function DataLines(lines: seq<string>): seq<string> {
    if lines == [] then [] else Clean(lines[1..])
  }

  // ---------------------------------------------------------------------------
  // Append and trim
  // ---------------------------------------------------------------------------

  /** `FILE_APPEND` adds the line at the end, creating the file when it is absent. */
  function Append(f: File, line: string): (f': File)
    ensures f'.Present? && |f'.lines| > 0 && f'.lines[|f'.lines| - 1] == line
  {
    match f
    case Absent => Present([line])
    case Present(ls) => Present(ls + [line])
  }

  /** `trimSDLogFile` on the file: nothing happens when the file is absent, the read
      open fails, the file holds at most fifty data lines or the write open fails;
      otherwise the file is rewritten as the header and the last fifty data lines. */
  function TrimFile(f: File, io: Io): (f': File)
    ensures f'.Present? <==> f.Present?
  {
    if f.Absent? || !io.readOpens then f
    else
      var data := DataLines(f.lines);
      if |data| <= MaxSdLogs || !io.writeOpens then f
      else Present([HeaderLine(f.lines)] + data[|data| - MaxSdLogs..])
  }

  /** Trimming keeps the file as it is when it holds fifty data lines or fewer, and
      otherwise leaves the header and exactly the last fifty lines in their order. */
  lemma TrimKeepsLastFifty(lines: seq<string>, io: Io)
    requires io.readOpens && io.writeOpens
    ensures var data := DataLines(lines);
      |data| <= MaxSdLogs ==> TrimFile(Present(lines), io) == Present(lines)
    ensures var data, f' := DataLines(lines), TrimFile(Present(lines), io);
      |data| > MaxSdLogs ==>
        && f'.lines[0] == lines[0]
        && DataLines(f'.lines) == data[|data| - MaxSdLogs..]
  {
    var data := DataLines(lines);
    if |data| > MaxSdLogs {
      var f' := TrimFile(Present(lines), io);
      var kept := data[|data| - MaxSdLogs..];
      assert f'.lines == [lines[0]] + kept;
      assert Clean(kept) == kept by {
        CleanIsTidy(lines[1..]);
        TidySuffix(data, |data| - MaxSdLogs);
        CleanTidy(kept);
      }
      assert f'.lines[1..] == kept;
    }
  }

  /** A suffix of tidy lines is tidy. */
  lemma TidySuffix(lines: seq<string>, k: nat)
    requires k <= |lines| && forall i :: 0 <= i < |lines| ==> Tidy(lines[i])
    ensures forall i :: 0 <= i < |lines| - k ==> Tidy(lines[k..][i])
  {
    forall i | 0 <= i < |lines| - k
      ensures Tidy(lines[k..][i])
    {
      assert lines[k..][i] == lines[k + i];
    }
  }

  /** The trim step on the whole state: only when the card is ready. */
  function TrimStep(st: LogState, io: Io): LogState {
    if st.sdReady then st.(file := TrimFile(st.file, io)) else st
  }

  /** `logActivity`: to the card when it is ready and the append open succeeds (then
      trimmed), otherwise into the RAM ring. */
  function LogStep(st: LogState, io: Io, e: Entry): (st': LogState)
    requires LogValid(st)
    ensures LogValid(st')
    ensures st'.sdReady == st.sdReady
  {
    if st.sdReady && io.appendOpens then
      TrimStep(st.(file := Append(st.file, FormatLine(e))), io)
    else
      st.(ram := Push(st.ram, MaxRamLogs, e))
  }

  /** An entry that goes to the card leaves the RAM ring untouched; one that goes to
      RAM leaves the file untouched and the ring then holds the last five entries. */
  lemma LogStepTiers(st: LogState, io: Io, e: Entry)
    requires LogValid(st)
    ensures st.sdReady && io.appendOpens ==> LogStep(st, io, e).ram == st.ram
    ensures !(st.sdReady && io.appendOpens) ==>
      && LogStep(st, io, e).file == st.file
      && Contents(LogStep(st, io, e).ram, MaxRamLogs) == LastN(Contents(st.ram, MaxRamLogs) + [e], MaxRamLogs)
  {
    if !(st.sdReady && io.appendOpens) {
      PushContents(st.ram, MaxRamLogs, e);
    }
  }

  /** When every open succeeds, appending a trimmed line to a file with a header leaves
      the header and the last fifty of the data lines with the new line appended, in
      order: below fifty the data lines simply grow by it, at fifty the oldest is
      dropped. */
  lemma AppendThenTrim(lines: seq<string>, io: Io, line: string)
    requires |lines| > 0 && io.readOpens && io.writeOpens && Tidy(line)
    ensures var f' := TrimFile(Append(Present(lines), line), io);
      var data := DataLines(f'.lines);
      && f'.lines[0] == lines[0]
      && 0 < |data| <= MaxSdLogs
      && data[|data| - 1] == line
      && (|DataLines(lines)| < MaxSdLogs ==> data == DataLines(lines) + [line])
      && data == LastN(DataLines(lines) + [line], MaxSdLogs)
  {
    var grown := lines + [line];
    assert grown[1..] == lines[1..] + [line];
    CleanAppend(lines[1..], [line]);
    assert Clean([line]) == [line] by {
      TrimTidy(line);
      assert [line][..0] == [];
    }
    assert DataLines(grown) == DataLines(lines) + [line];
    TrimKeepsLastFifty(grown, io);
  }

  // ---------------------------------------------------------------------------
  // The query
  // ---------------------------------------------------------------------------

  /** The data lines the query holds: the first five hundred kept. */
  function ReadLines(lines: seq<string>): (r: seq<string>)
    ensures |r| <= MaxReadLines
  {
    var data := DataLines(lines);
    if |data| <= MaxReadLines then data else data[..MaxReadLines]
  }

  /** The present values of `xs`, last first. */
  function Backwards<T>(xs: seq<Option<T>>): (r: seq<T>)
    ensures |r| <= |xs|
  {
    if xs == [] then []
    else Backwards(xs[1..]) + match xs[0] case Some(v) => [v] case None => []
  }

  /** Each line's parse, in file order. */
  function Parsed(lines: seq<string>): (r: seq<Option<LogView>>)
    ensures |r| == |lines|
  {
    seq(|lines|, i requires 0 <= i < |lines| => ParseView(lines[i]))
  }

  /** The records of `lines`, last line first, malformed lines dropped. */
  function NewestFirst(lines: seq<string>): seq<LogView> {
    Backwards(Parsed(lines))
  }

  /** Reading one line more at the front adds its record, if any, at the back. */
  lemma NewestFirstStep(lines: seq<string>)
    requires |lines| > 0
    ensures NewestFirst(lines) ==
      NewestFirst(lines[1..]) + match ParseView(lines[0]) case Some(v) => [v] case None => []
  {
    var xs := Parsed(lines);
    assert xs[1..] == Parsed(lines[1..]);
    assert xs[0] == ParseView(lines[0]);
  }

  function Max(a: int, b: int): int {
    if a > b then a else b
  }

  function Min(a: int, b: int): int {
    if a < b then a else b
  }

  /** The card path: the last `limit` lines read, newest first; none for a limit
      below one. */
  function QuerySd(lines: seq<string>, limit: int): seq<LogView> {
    var kept := ReadLines(lines);
    var start := Min(Max(0, |kept| - limit), |kept|);
    NewestFirst(kept[start..])
  }

  /** The RAM path: the newest `limit` entries of the ring, newest first. */
  function QueryRam(r: Ring<Entry>, limit: int): (v: seq<LogView>)
    requires RingValid(r, MaxRamLogs)
  {
    var n := Min(r.count, Max(0, limit));
    var c := Contents(r, MaxRamLogs);
    seq(n, i requires 0 <= i < n => EntryView(c[r.count - 1 - i]))
  }

  /** The RAM query's slot arithmetic, `(index - 1 - i + 5) % 5`, lands on the
      `i`-th newest entry. */
  lemma CursorSlot(r: Ring<Entry>, i: int)
    requires RingValid(r, MaxRamLogs) && 0 <= i < r.count
    ensures var k := (r.index - 1 - i + MaxRamLogs) % MaxRamLogs;
      k == NewestSlot(r, MaxRamLogs, i) && r.slots[k] == Contents(r, MaxRamLogs)[r.count - 1 - i]
  {
    NewestSlotIsNewest(r, MaxRamLogs, i);
  }

  /** One more RAM record: the next older entry, appended. */
  lemma QueryRamStep(r: Ring<Entry>, i: int)
    requires RingValid(r, MaxRamLogs) && 0 <= i < r.count
    ensures QueryRam(r, i + 1) == QueryRam(r, i) + [EntryView(Contents(r, MaxRamLogs)[r.count - 1 - i])]
  {
  }

  /** `/api/logs`: the card when it is ready and the file exists (nothing at all when
      its read open fails), the RAM ring otherwise. */
  function Query(st: LogState, io: Io, limit: int): seq<LogView>
    requires LogValid(st)
  {
    if st.sdReady && st.file.Present? then
      if io.readOpens then QuerySd(st.file.lines, limit) else []
    else QueryRam(st.ram, limit)
  }

  /** The query never returns more records than its limit, nor more than five hundred. */
  lemma QueryBounded(st: LogState, io: Io, limit: int)
    requires LogValid(st)
    ensures |Query(st, io, limit)| <= Max(0, Min(limit, MaxReadLines))
  {
  }

  /** Records are reported newest first: on well-formed lines the card path is the
      reverse of the last `limit` lines. */
  lemma {:induction false} BackwardsReverses<T>(xs: seq<Option<T>>)
    requires forall i :: 0 <= i < |xs| ==> xs[i].Some?
    ensures |Backwards(xs)| == |xs|
    ensures forall i :: 0 <= i < |xs| ==> Backwards(xs)[i] == xs[|xs| - 1 - i].value
    decreases |xs|
  {
    if xs != [] {
      var rest := xs[1..];
      BackwardsReverses(rest);
      var r := Backwards(xs);
      assert r == Backwards(rest) + [xs[0].value];
      forall i | 0 <= i < |xs|
        ensures r[i] == xs[|xs| - 1 - i].value
      {
        if i < |rest| {
          assert r[i] == Backwards(rest)[i];
          assert rest[|rest| - 1 - i] == xs[|xs| - 1 - i];
        }
      }
    }
  }

  /** Records are reported newest first: on well-formed lines the card path is the
      reverse of the lines. */
  lemma NewestFirstReverses(lines: seq<string>)
    requires forall i :: 0 <= i < |lines| ==> ParseView(lines[i]).Some?
    ensures |NewestFirst(lines)| == |lines|
    ensures forall i :: 0 <= i < |lines| ==>
      NewestFirst(lines)[i] == ParseView(lines[|lines| - 1 - i]).value
  {
    var xs := Parsed(lines);
    BackwardsReverses(xs);
    forall i | 0 <= i < |lines|
      ensures NewestFirst(lines)[i] == ParseView(lines[|lines| - 1 - i]).value
    {
      assert xs[|xs| - 1 - i] == ParseView(lines[|lines| - 1 - i]);
    }
  }

  /** A file whose last data line parses, and which holds no more than five hundred,
      reports that line's record first. */
  lemma LastLineReportedFirst(lines: seq<string>, limit: int, v: LogView)
    requires limit >= 1
    requires var data := DataLines(lines);
      0 < |data| <= MaxReadLines && ParseView(data[|data| - 1]) == Some(v)
    ensures var q := QuerySd(lines, limit); |q| > 0 && q[0] == v
  {
    var kept := ReadLines(lines);
    var start := Min(Max(0, |kept| - limit), |kept|);
    var tail := kept[start..];
    assert QuerySd(lines, limit) == NewestFirst(tail);
    assert |tail| > 0 && ParseView(tail[|tail| - 1]) == Some(v) by {
      assert tail[|tail| - 1] == kept[|kept| - 1];
    }
    NewestFirstLast(tail, v);
  }

  /** On the card, with every open succeeding, a parsing line just appended is the
      query's first record. */
  lemma CardQueryAfterAppend(lines: seq<string>, io: Io, line: string, v: LogView, limit: int)
    requires |lines| > 0 && io == Io(true, true, true) && limit >= 1
    requires Tidy(line) && ParseView(line) == Some(v)
    ensures var q := QuerySd(TrimFile(Append(Present(lines), line), io).lines, limit);
      |q| > 0 && q[0] == v
  {
    AppendThenTrim(lines, io, line);
    LastLineReportedFirst(TrimFile(Append(Present(lines), line), io).lines, limit, v);
  }

  /** After an entry is logged with every open succeeding, the query's first record is
      that entry, whichever tier took it, provided a ready card's file holds at least its
      header line (without the file, see `HeaderlessFileHidesFirstEntry`). */
  lemma LoggedEntryComesFirst(st: LogState, io: Io, e: Entry, limit: int)
    requires LogValid(st) && limit >= 1
    requires io == Io(true, true, true)
    requires st.sdReady ==> st.file.Present? && |st.file.lines| > 0
    requires NoComma(e.username) && NoComma(e.action)
    ensures var q := Query(LogStep(st, io, e), io, limit);
      |q| > 0 && q[0] == EntryView(e)
  {
    if st.sdReady {
      FormatThenParse(e);
      CardQueryAfterAppend(st.file.lines, io, FormatLine(e), EntryView(e), limit);
    } else {
      PushContents(st.ram, MaxRamLogs, e);
    }
  }

  lemma {:induction false} BackwardsLast<T>(xs: seq<Option<T>>, v: T)
    requires |xs| > 0 && xs[|xs| - 1] == Some(v)
    ensures |Backwards(xs)| > 0 && Backwards(xs)[0] == v
    decreases |xs|
  {
    if |xs| > 1 {
      assert xs[1..][|xs[1..]| - 1] == xs[|xs| - 1];
      BackwardsLast(xs[1..], v);
    }
  }

  /** The record of the last line comes first. */
  lemma NewestFirstLast(lines: seq<string>, v: LogView)
    requires |lines| > 0 && ParseView(lines[|lines| - 1]) == Some(v)
    ensures |NewestFirst(lines)| > 0 && NewestFirst(lines)[0] == v
  {
    BackwardsLast(Parsed(lines), v);
  }

  /** While the card is ready and the file exists, an entry that fell back to RAM
      because the append open failed is not reported by the query. */
  lemma FallbackHiddenFromQuery(st: LogState, io: Io, e: Entry, limit: int)
    requires LogValid(st) && st.sdReady && st.file.Present? && !io.appendOpens
    ensures Query(LogStep(st, io, e), io, limit) == Query(st, io, limit)
  {
  }

  /** A ready card without the log file (its header write failed at boot or in the
      clear): the first entry logged creates the file with `FILE_APPEND`, and both
      readers then take that entry's line for the header, so the query reports nothing
      and trimming would keep the line as the header. */
  lemma HeaderlessFileHidesFirstEntry(st: LogState, io: Io, e: Entry, limit: int)
    requires LogValid(st) && st.sdReady && st.file.Absent? && io == Io(true, true, true)
    ensures LogStep(st, io, e).file == Present([FormatLine(e)])
    ensures HeaderLine(LogStep(st, io, e).file.lines) == FormatLine(e)
    ensures DataLines(LogStep(st, io, e).file.lines) == []
    ensures Query(LogStep(st, io, e), io, limit) == []
  {
    assert [FormatLine(e)][1..] == [];
  }

  // ---------------------------------------------------------------------------
  // Clear and boot
  // ---------------------------------------------------------------------------

  /** `/api/logs/clear`: the ring emptied; on a ready card the file removed and
      recreated with the header alone, or left absent when the write open fails. */
  function Clear(st: LogState, io: Io): (st': LogState)
    requires LogValid(st)
    ensures LogValid(st') && st'.sdReady == st.sdReady
  {
    var ram := Empty(st.ram, MaxRamLogs);
    if st.sdReady then st.(ram := ram, file := if io.writeOpens then Present([Header]) else Absent)
    else st.(ram := ram)
  }

  /** Clearing twice is clearing once, and a cleared log reports nothing. */
  lemma ClearIdempotent(st: LogState, io: Io, io': Io, limit: int)
    requires LogValid(st)
    ensures Clear(Clear(st, io), io) == Clear(st, io)
    ensures Query(Clear(st, io), io', limit) == []
  {
    var c := Clear(st, io);
    if st.sdReady && io.writeOpens {
      assert [Header][1..] == [];
    }
  }

  /** The SD set-up in `setup`: a mounted card without the file gets one holding the
      header (when the write open succeeds); the RAM ring starts empty. */
  function Boot(mounted: bool, existing: File, io: Io, slots: seq<Entry>): (st: LogState)
    requires |slots| == MaxRamLogs
    ensures LogValid(st) && st.sdReady == mounted && Contents(st.ram, MaxRamLogs) == []
    ensures mounted && existing.Absent? && io.writeOpens ==> st.file == Present([Header])
    ensures existing.Present? ==> st.file == existing
  {
    var file := if mounted && existing.Absent? && io.writeOpens then Present([Header]) else existing;
    LogState(mounted, file, Ring(slots, 0, 0))
  }

  // ---------------------------------------------------------------------------
  // The store as the source keeps it: globals updated in place
  // ---------------------------------------------------------------------------

  class LogStore {
    var sdCardReady: bool
    var sdFile: File
    const ramLogBuffer: array<Entry>
    var ramLogIndex: int
    var ramLogCount: int

    function State(): LogState
      reads this, ramLogBuffer
    {
      LogState(sdCardReady, sdFile, Ring(ramLogBuffer[..], ramLogIndex, ramLogCount))
    }

    ghost predicate Valid()
      reads this, ramLogBuffer
    {
      ramLogBuffer.Length == MaxRamLogs && LogValid(State())
    }

    /** The SD set-up of `setup`, with the RAM buffer zero-initialised. */
    constructor (mounted: bool, existing: File, io: Io)
      ensures Valid() && fresh(ramLogBuffer)
      ensures State() == Boot(mounted, existing, io, ramLogBuffer[..])
    {
      ramLogBuffer := new Entry[MaxRamLogs](_ => Entry([], [], false, 0, 0));
      ramLogIndex, ramLogCount := 0, 0;
      sdCardReady := mounted;
      if mounted && existing.Absent? && io.writeOpens {
        sdFile := Present([Header]);
      } else {
        sdFile := existing;
      }
    }

    /** Reads the data lines of the file as both readers do: the header skipped, every
        further line trimmed, empty ones dropped, at most `cap` kept. */
    static method ReadDataLines(raw: seq<string>, cap: int) returns (lines: seq<string>)
      requires cap >= 1
      ensures var data := DataLines(raw);
        lines == if |data| <= cap then data else data[..cap]
    {
      lines := [];
      if raw == [] {
        return;
      }
      ghost var data := raw[1..];
      var pos := 1;
      while pos < |raw| && |lines| < cap
        invariant 1 <= pos <= |raw|
        invariant lines == Clean(raw[1..pos]) && |lines| <= cap
      {
        var line := Trim(raw[pos]);
        CleanSnoc(raw, pos);
        if |line| > 0 {
          lines := lines + [line];
        }
        pos := pos + 1;
      }
      ReadStopped(raw, pos, cap);
    }

    /** The reading loop of `trimSDLogFile`: every data line, trimmed, blanks dropped. */
    static method ReadAllDataLines(raw: seq<string>) returns (lines: seq<string>)
      ensures lines == DataLines(raw)
    {
      lines := [];
      if raw == [] {
        return;
      }
      var pos := 1;
      while pos < |raw|
        invariant 1 <= pos <= |raw|
        invariant lines == Clean(raw[1..pos])
      {
        var line := Trim(raw[pos]);
        CleanSnoc(raw, pos);
        if |line| > 0 {
          lines := lines + [line];
        }
        pos := pos + 1;
      }
      assert raw[1..pos] == raw[1..];
    }

    /** The writing loop of `trimSDLogFile`: the header, then the lines from `startIdx`. */
    static method Rewrite(header: string, lines: seq<string>, startIdx: int) returns (out: seq<string>)
      requires 0 <= startIdx <= |lines|
      ensures |out| == |lines| - startIdx + 1 && out[0] == header
      ensures out[1..] == lines[startIdx..]
    {
      out := [header];
      for i := startIdx to |lines|
        invariant out == [header] + lines[startIdx..i]
      {
        out := out + [lines[i]];
      }
    }

    /** `trimSDLogFile`. */
    method TrimSDLogFile(io: Io)
      requires Valid()
      modifies this
      ensures Valid()
      ensures State() == TrimStep(old(State()), io)
    {
      if !sdCardReady || !sdFile.Present? {
        return;
      }
      if !io.readOpens {
        return;
      }
      var raw := sdFile.lines;
      var header := if raw == [] then [] else raw[0];
      var lines := ReadAllDataLines(raw);
      if |lines| <= MaxSdLogs {
        return;
      }
      var startIdx := |lines| - MaxSdLogs;
      if !io.writeOpens {
        return;
      }
      var out := Rewrite(header, lines, startIdx);
      assert out == [HeaderLine(raw)] + lines[startIdx..];
      sdFile := Present(out);
    }

    /** `logActivity`, stamped with the current time `now`. */
    method LogActivity(userName: string, action: string, success: bool, confidence: nat,
                       now: Millis, io: Io)
      requires Valid()
      modifies this, ramLogBuffer
      ensures Valid()
      ensures State() == LogStep(old(State()), io, Entry(userName, action, success, confidence, now))
    {
      var e := Entry(userName, action, success, confidence, now);
      if sdCardReady && io.appendOpens {
        sdFile := Append(sdFile, FormatLine(e));
        TrimSDLogFile(io);
      } else {
        ramLogBuffer[ramLogIndex] := e;
        ramLogIndex := (ramLogIndex + 1) % MaxRamLogs;
        if ramLogCount < MaxRamLogs {
          ramLogCount := ramLogCount + 1;
        }
      }
    }

    /** The card loop of `/api/logs`: from the last line down to `start`, each line
        that parses appended to the records. */
    static method SdNewestFirst(lines: seq<string>, start: int) returns (records: seq<LogView>)
      requires 0 <= start
      ensures records == NewestFirst(lines[Min(start, |lines|)..])
    {
      records := [];
      var i := |lines| - 1;
      while i >= start
        invariant -1 <= i < |lines|
        invariant i == |lines| - 1 || start - 1 <= i
        invariant records == NewestFirst(lines[i + 1..])
      {
        assert lines[i..][1..] == lines[i + 1..];
        NewestFirstStep(lines[i..]);
        match ParseView(lines[i]) {
          case Some(v) => records := records + [v];
          case None =>
        }
        i := i - 1;
      }
      if start >= |lines| {
        assert lines[Min(start, |lines|)..] == lines[i + 1..];
      }
    }

    /** The RAM loop of `/api/logs`: walking back from the write cursor, at most
        `limit` entries. */
    method RamNewestFirst(limit: int) returns (records: seq<LogView>)
      requires Valid()
      ensures records == QueryRam(State().ram, limit)
    {
      ghost var r := State().ram;
      records := [];
      var i := 0;
      while i < ramLogCount && i < limit
        invariant 0 <= i <= ramLogCount && i <= Max(0, limit)
        invariant records == QueryRam(r, i)
      {
        var idx := (ramLogIndex - 1 - i + MaxRamLogs) % MaxRamLogs;
        if idx < 0 {
          idx := idx + MaxRamLogs;
        }
        assert ramLogBuffer[idx] == Contents(r, MaxRamLogs)[r.count - 1 - i] by {
          CursorSlot(r, i);
        }
        records := records + [EntryView(ramLogBuffer[idx])];
        QueryRamStep(r, i);
        i := i + 1;
      }
      assert i == Min(r.count, Max(0, limit));
    }

    /** The `/api/logs` handler, without the JSON text. */
    method QueryLogs(limit: int, io: Io) returns (records: seq<LogView>)
      requires Valid()
      ensures records == Query(State(), io, limit)
    {
      if sdCardReady && sdFile.Present? {
        if !io.readOpens {
          return [];
        }
        var lines := ReadDataLines(sdFile.lines, MaxReadLines);
        records := SdNewestFirst(lines, Max(0, |lines| - limit));
      } else {
        records := RamNewestFirst(limit);
      }
    }

    /** The `/api/logs/clear` handler. */
    method ClearLogs(io: Io)
      requires Valid()
      modifies this
      ensures Valid()
      ensures State() == Clear(old(State()), io)
    {
      ramLogIndex := 0;
      ramLogCount := 0;
      if sdCardReady {
        sdFile := Absent;
        if io.writeOpens {
          sdFile := Present([Header]);
        }
      }
    }
  }
}
