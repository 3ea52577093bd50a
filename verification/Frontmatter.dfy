/**
 Task files with a frontmatter block: the printer and the parser of scripts/handoff.py
 (`read_frontmatter`, `write_task`).
 */
module Frontmatter {
  import opened Sequences
  import opened Text
  import opened Lines
  import opened FrontmatterValues

  /** A dict: its values, and its keys in insertion order. */
  datatype Meta = Meta(order: seq<string>, values: map<string, Value>)

  ghost predicate IsDict(m: Meta) {
    NoDuplicates(m.order) && forall k :: k in m.order <==> k in m.values
  }

  const TASK_FIELDS: seq<string> := ["id", "title", "status", "milestone", "adr", "area", "depends_on", "branch",
                                     "owner", "session", "pr", "created", "blocked_reason"]

  // ---------------------------------------------------------------------------
  // Printing
  // ---------------------------------------------------------------------------

  function EntryLine(key: string, v: Value): string {
    key + ":" + (" " + DumpValue(v))
  }

  function EntryLines(keys: seq<string>, values: map<string, Value>): seq<string>
    requires forall k :: k in keys ==> k in values
  {
    if keys == [] then []
    else
      var front, key := keys[..|keys| - 1], keys[|keys| - 1];
      EntryLines(front, values) + [EntryLine(key, values[key])]
  }

  /** The fields the dict has, in their fixed order. */
  function KnownKeys(values: map<string, Value>, fields: seq<string>): (r: seq<string>)
    ensures forall k :: k in r <==> k in fields && k in values
  {
    if fields == [] then []
    else
      var front, key := fields[..|fields| - 1], fields[|fields| - 1];
      assert fields == front + [key];
      KnownKeys(values, front) + if key in values then [key] else []
  }

  /** The other keys, in insertion order. */
  function UnknownKeys(order: seq<string>, fields: seq<string>): (r: seq<string>)
    ensures forall k :: k in r <==> k in order && k !in fields
  {
    if order == [] then []
    else
      var front, key := order[..|order| - 1], order[|order| - 1];
      assert order == front + [key];
      UnknownKeys(front, fields) + if key in fields then [] else [key]
  }

  function PrintedKeys(m: Meta): seq<string> {
    KnownKeys(m.values, TASK_FIELDS) + UnknownKeys(m.order, TASK_FIELDS)
  }

  predicate IsNewline(c: char) {
    c == '\n'
  }

  function Header(m: Meta): seq<string>
    requires forall k :: k in m.order ==> k in m.values
  {
    ["---"] + EntryLines(PrintedKeys(m), m.values) + ["---", ""]
  }

  function Printed(m: Meta, body: string): string
    requires forall k :: k in m.order ==> k in m.values
  {
    Join(Header(m) + [TrimRight(body, IsNewline), ""])
  }

  lemma EntryLinesSnoc(keys: seq<string>, key: string, values: map<string, Value>)
    requires key in values && forall k :: k in keys ==> k in values
    ensures EntryLines(keys + [key], values) == EntryLines(keys, values) + [EntryLine(key, values[key])]
  {
    assert (keys + [key])[..|keys|] == keys;
  }

  lemma {:induction false} EntryLinesConcat(a: seq<string>, b: seq<string>, values: map<string, Value>)
    requires (forall k :: k in a ==> k in values) && (forall k :: k in b ==> k in values)
    ensures EntryLines(a + b, values) == EntryLines(a, values) + EntryLines(b, values)
    decreases |b|
  {
    if b == [] {
      assert a + b == a;
    } else {
      var front, key := b[..|b| - 1], b[|b| - 1];
      EntryLinesConcat(a, front, values);
      ConcatFrontLast(a, b);
      EntryLinesSnoc(a + front, key, values);
      ConcatAssoc(EntryLines(a, values), EntryLines(front, values), [EntryLine(key, values[key])]);
    }
  }

  lemma KnownKeysPrefix(values: map<string, Value>, fields: seq<string>, i: nat)
    requires i < |fields|
    ensures fields[i] in values ==> KnownKeys(values, fields[..i + 1]) == KnownKeys(values, fields[..i]) + [fields[i]]
    ensures fields[i] !in values ==> KnownKeys(values, fields[..i + 1]) == KnownKeys(values, fields[..i])
  {
    assert fields[..i + 1][..i] == fields[..i];
    var keys := KnownKeys(values, fields[..i]);
    assert keys + [] == keys;
  }

  lemma UnknownKeysPrefix(order: seq<string>, fields: seq<string>, i: nat)
    requires i < |order|
    ensures order[i] !in fields ==> UnknownKeys(order[..i + 1], fields) == UnknownKeys(order[..i], fields) + [order[i]]
    ensures order[i] in fields ==> UnknownKeys(order[..i + 1], fields) == UnknownKeys(order[..i], fields)
  {
    assert order[..i + 1][..i] == order[..i];
    var keys := UnknownKeys(order[..i], fields);
    assert keys + [] == keys;
  }

  /** The first loop of `write_task`. */
  method WriteKnown(values: map<string, Value>, fields: seq<string>) returns (out: seq<string>)
    ensures out == EntryLines(KnownKeys(values, fields), values)
  {
    out := [];
    for i := 0 to |fields|
      invariant out == EntryLines(KnownKeys(values, fields[..i]), values)
    {
      KnownKeysPrefix(values, fields, i);
      if fields[i] in values {
        EntryLinesSnoc(KnownKeys(values, fields[..i]), fields[i], values);
        out := out + [EntryLine(fields[i], values[fields[i]])];
      }
    }
    assert fields[..|fields|] == fields;
  }

  /** The second loop of `write_task`. */
  method WriteUnknown(m: Meta, fields: seq<string>) returns (out: seq<string>)
    requires forall k :: k in m.order ==> k in m.values
    ensures out == EntryLines(UnknownKeys(m.order, fields), m.values)
  {
    out := [];
    for i := 0 to |m.order|
      invariant out == EntryLines(UnknownKeys(m.order[..i], fields), m.values)
    {
      UnknownKeysPrefix(m.order, fields, i);
      if m.order[i] !in fields {
        EntryLinesSnoc(UnknownKeys(m.order[..i], fields), m.order[i], m.values);
        out := out + [EntryLine(m.order[i], m.values[m.order[i]])];
      }
    }
    assert m.order[..|m.order|] == m.order;
  }

  /** `write_task`, up to writing the text to the file. */
  method WriteTask(m: Meta, body: string) returns (text: string)
    requires forall k :: k in m.order ==> k in m.values
    ensures text == Printed(m, body)
  {
    var known := WriteKnown(m.values, TASK_FIELDS);
    var unknown := WriteUnknown(m, TASK_FIELDS);
    EntryLinesConcat(KnownKeys(m.values, TASK_FIELDS), UnknownKeys(m.order, TASK_FIELDS), m.values);
    text := Join((["---"] + (known + unknown) + ["---", ""]) + [TrimRight(body, IsNewline), ""]);
  }

  // ---------------------------------------------------------------------------
  // Reading
  // ---------------------------------------------------------------------------

  function FirstColon(s: string): (k: nat)
    ensures k <= |s| && forall i :: 0 <= i < k ==> s[i] != ':'
    ensures k < |s| ==> s[k] == ':'
  {
    Find(s, 0, IsColon)
  }

  datatype Entry = Skipped | Entry(key: string, value: Value)

  /** What one line of the block says; lines without a colon are skipped. */
  function EntryOf(line: string): Entry {
    var k := FirstColon(line);
    if Strip(line) == [] || k == |line| then Skipped else Entry(Strip(line[..k]), ParseValue(line[k + 1..]))
  }

  function Enter(meta: map<string, Value>, e: Entry): map<string, Value> {
    if e.Skipped? then meta else meta[e.key := e.value]
  }

  /** The dict a block of lines makes when `entry` reads each of them. */
  function EnterAll(lines: seq<string>, entry: string -> Entry): map<string, Value> {
    if lines == [] then map[] else Enter(EnterAll(lines[..|lines| - 1], entry), entry(lines[|lines| - 1]))
  }

  predicate IsClosing(line: string) {
    Strip(line) == "---"
  }

  datatype Document = Document(meta: map<string, Value>, body: string)

  function Parsed(text: string): Document {
    var lines := SplitLines(text);
    if !StartsWith(text, "---") || lines == [] || Find(lines, 1, IsClosing) == |lines| then Document(map[], text)
    else
      var end := Find(lines, 1, IsClosing);
      Document(EnterAll(lines[1..end], EntryOf), TrimLeft(Join(lines[end + 1..]), IsNewline))
  }

  /** The search for the closing line. */
  method FindClosing(lines: seq<string>, p: string -> bool) returns (end: nat)
    requires lines != []
    ensures end == Find(lines, 1, p)
  {
    end := 1;
    while end < |lines| && !p(lines[end])
      invariant end <= |lines| && Find(lines, 1, p) == Find(lines, end, p)
    {
      end := end + 1;
    }
  }

  lemma EnterAllSnoc(lines: seq<string>, line: string, entry: string -> Entry)
    ensures EnterAll(lines + [line], entry) == Enter(EnterAll(lines, entry), entry(line))
  {
    assert (lines + [line])[..|lines|] == lines;
  }

  /** The loop over the lines of the block. */
  method EnterBlock(block: seq<string>, entry: string -> Entry) returns (meta: map<string, Value>)
    ensures meta == EnterAll(block, entry)
  {
    meta := map[];
    for i := 0 to |block|
      invariant meta == EnterAll(block[..i], entry)
    {
      assert block[..i + 1] == block[..i] + [block[i]];
      EnterAllSnoc(block[..i], block[i], entry);
      var e := entry(block[i]);
      if e.Skipped? {
        continue;
      }
      meta := meta[e.key := e.value];
    }
    assert block[..|block|] == block;
  }

  /** `read_frontmatter` on the text of the file. */
  method ReadFrontmatter(text: string) returns (doc: Document)
    ensures doc == Parsed(text)
  {
    if !StartsWith(text, "---") {
      return Document(map[], text);
    }
    var lines := SplitLines(text);
    if lines == [] {
      return Document(map[], text);
    }
    var end := FindClosing(lines, IsClosing);
    if end >= |lines| {
      return Document(map[], text);
    }
    var meta := EnterBlock(lines[1..end], EntryOf);
    doc := Document(meta, TrimLeft(Join(lines[end + 1..]), IsNewline));
  }

  // ---------------------------------------------------------------------------
  // Round trip
  // ---------------------------------------------------------------------------

  /** A key and value that make one line, with the key before its first colon. */
  predicate PrintableEntry(key: string, v: Value) {
    ':' !in key && StripStable(key) && BreakFree(key) && BreakFree(DumpValue(v))
  }

  /** A key and value the format can carry. */
  predicate CleanEntry(key: string, v: Value) {
    PrintableEntry(key, v) && CleanValue(v)
  }

  predicate Printable(m: Meta) {
    forall k :: k in m.values ==> PrintableEntry(k, m.values[k])
  }

  predicate Clean(m: Meta) {
    forall k :: k in m.values ==> CleanEntry(k, m.values[k])
  }

  /** What becomes of a printed value. */
  function ReadBack(v: Value): Value {
    ParseValue(" " + DumpValue(v))
  }

  lemma ColonStays(s: string)
    requires ':' in s
    ensures ':' in Strip(s) && !IsClosing(s)
  {
    var i :| 0 <= i < |s| && s[i] == ':';
    var t := TrimLeft(s, IsSpace);
    assert !IsSpace(':');
    var k := |s| - |t|;
    assert k <= i && t[i - k] == ':';
    assert Strip(s)[i - k] == ':';
    assert "---"[0] == '-' && "---"[1] == '-' && "---"[2] == '-';
  }

  lemma EntryLineShape(key: string, v: Value)
    requires PrintableEntry(key, v)
    ensures var line := EntryLine(key, v);
            && FirstColon(line) == |key| && |key| < |line|
            && line[..|key|] == key && line[|key| + 1..] == " " + DumpValue(v)
            && BreakFree(line) && ':' in line
  {
    var line := EntryLine(key, v);
    assert line[|key|] == ':';
    assert forall i :: 0 <= i < |key| ==> line[i] == key[i] && key[i] in key;
  }

  predicate IsBlockLine(l: string) {
    BreakFree(l) && !IsClosing(l)
  }

  lemma EntryOfParts(line: string, k: nat, before: string, after: string)
    requires FirstColon(line) == k < |line| && line[..k] == before && line[k + 1..] == after && Strip(line) != []
    ensures EntryOf(line) == Entry(Strip(before), ParseValue(after))
  {
  }

  lemma EntryLineParses(key: string, v: Value)
    requires PrintableEntry(key, v)
    ensures EntryOf(EntryLine(key, v)) == Entry(key, ReadBack(v))
    ensures IsBlockLine(EntryLine(key, v))
  {
    EntryLineShape(key, v);
    ColonStays(EntryLine(key, v));
    EntryOfParts(EntryLine(key, v), |key|, key, " " + DumpValue(v));
    StripOfStable(key);
  }

  /** The lines of entries make the dict of what `entry` reads back of them. */
  lemma {:induction false} EntryLinesParse(keys: seq<string>, values: map<string, Value>, entry: string -> Entry,
                                           read: Value -> Value)
    requires forall k :: k in keys ==> k in values && entry(EntryLine(k, values[k])) == Entry(k, read(values[k]))
    ensures var meta := EnterAll(EntryLines(keys, values), entry);
            && (forall k :: k in meta <==> k in keys)
            && (forall k :: k in keys ==> meta[k] == read(values[k]))
  {
    if keys != [] {
      var front, key := keys[..|keys| - 1], keys[|keys| - 1];
      assert keys == front + [key];
      EntryLinesParse(front, values, entry, read);
      EnterAllSnoc(EntryLines(front, values), EntryLine(key, values[key]), entry);
    }
  }

  lemma {:induction false} EntryLinesAre(keys: seq<string>, values: map<string, Value>, p: string -> bool)
    requires forall k :: k in keys ==> k in values && p(EntryLine(k, values[k]))
    ensures forall l :: l in EntryLines(keys, values) ==> p(l)
  {
    if keys != [] {
      assert keys == keys[..|keys| - 1] + [keys[|keys| - 1]];
      EntryLinesAre(keys[..|keys| - 1], values, p);
    }
  }

  /** The lines of a printed text: the header as it was, then the lines of the body. */
  lemma PrintedSplits(header: seq<string>, body: string)
    requires forall l :: l in header ==> BreakFree(l)
    ensures SplitLines(Join(header + [body, ""])) == header + SplitLines(body + "\n")
  {
    JoinConcat(header, [body, ""]);
    JoinPair(body);
    SplitTerminated(header, body + "\n");
  }

  lemma JoinPair(body: string)
    ensures Join([body, ""]) == body + "\n"
  {
    assert [body, ""][1..] == [""];
    assert Join([""]) == "";
  }

  lemma StartsWithDashes(header: seq<string>, rest: seq<string>)
    requires header != [] && header[0] == "---" && rest != []
    ensures StartsWith(Join(header + rest), "---")
  {
    JoinConcat(header, rest);
    assert Terminated(header) == "---" + ("\n" + Terminated(header[1..]));
  }

  /** The text behind the closing line: an empty line and the lines of the body. */
  lemma BodyComesBack(tail: seq<string>)
    requires tail != []
    ensures TrimLeft(Join([""] + tail), IsNewline) == TrimLeft(Join(tail), IsNewline)
  {
    JoinConcat([""], tail);
    TerminatedOne("");
    assert "" + "\n" == "\n" && "\n" + Join(tail) == ['\n'] + Join(tail);
    TrimLeftCons('\n', Join(tail), IsNewline);
  }

  /** Line feeds are all that trimming takes away. */
  lemma TrimKeepsBreaks(body: string)
    ensures LineFeedsOnly(TrimRight(body, IsNewline)) <==> LineFeedsOnly(body)
    ensures LineFeedsOnly(TrimLeft(body, IsNewline)) <==> LineFeedsOnly(body)
  {
    var right, left := TrimRight(body, IsNewline), TrimLeft(body, IsNewline);
    assert forall c :: c in body ==> c in right || c == '\n';
    assert forall c :: c in body ==> c in left || c == '\n';
    assert forall c :: c in right ==> c in body;
    assert forall c :: c in left ==> c in body;
  }

  lemma SlicesOf<T>(a: T, middle: seq<T>, c: T, d: T, tail: seq<T>, all: seq<T>)
    requires all == ([a] + middle + [c, d]) + tail
    ensures |all| == 3 + |middle| + |tail| && all[1 + |middle|] == c
    ensures all[1..1 + |middle|] == middle
    ensures all[2 + |middle|..] == [d] + tail
    ensures forall j :: 1 <= j <= |middle| ==> all[j] == middle[j - 1]
  {
  }

  /** A header's shape pins the closing line and the slices around it. */
  lemma Slices(entries: seq<string>, tail: seq<string>, dash: string, blank: string, lines: seq<string>,
               p: string -> bool)
    requires lines == ([dash] + entries + [dash, blank]) + tail
    requires p(dash) && forall l :: l in entries ==> !p(l)
    ensures var end := 1 + |entries|;
            && end < |lines| && Find(lines, 1, p) == end
            && lines[1..end] == entries && lines[end + 1..] == [blank] + tail
  {
    SlicesOf(dash, entries, dash, blank, tail, lines);
    FindIs(lines, 1, 1 + |entries|, p);
  }

  lemma SameDictIff(a: map<string, Value>, b: map<string, Value>, read: Value -> Value)
    requires forall k :: k in a <==> k in b
    requires forall k :: k in b ==> a[k] == read(b[k])
    ensures a == b <==> forall k :: k in b ==> read(b[k]) == b[k]
  {
  }

  /** Printing a whole dict and reading its entries gives it back exactly when every value comes back. */
  lemma EntriesAreTheDictIff(m: Meta, keys: seq<string>, entry: string -> Entry, read: Value -> Value,
                             p: string -> bool)
    requires forall k :: k in keys <==> k in m.values
    requires forall k :: k in m.values ==>
      entry(EntryLine(k, m.values[k])) == Entry(k, read(m.values[k])) && p(EntryLine(k, m.values[k]))
    ensures EnterAll(EntryLines(keys, m.values), entry) == m.values
            <==> forall k :: k in m.values ==> read(m.values[k]) == m.values[k]
    ensures forall l :: l in EntryLines(keys, m.values) ==> p(l)
  {
    EntryLinesParse(keys, m.values, entry, read);
    SameDictIff(EnterAll(EntryLines(keys, m.values), entry), m.values, read);
    EntryLinesAre(keys, m.values, p);
  }

  lemma PrintableEntriesParse(m: Meta)
    requires Printable(m)
    ensures forall k :: k in m.values ==>
      EntryOf(EntryLine(k, m.values[k])) == Entry(k, ReadBack(m.values[k])) && IsBlockLine(EntryLine(k, m.values[k]))
  {
    forall k | k in m.values
      ensures EntryOf(EntryLine(k, m.values[k])) == Entry(k, ReadBack(m.values[k]))
              && IsBlockLine(EntryLine(k, m.values[k]))
    {
      EntryLineParses(k, m.values[k]);
    }
  }

  /** What the printed text splits into, for any clean header. */
  lemma PrintedParses(entries: seq<string>, b: string, text: string)
    requires forall l :: l in entries ==> IsBlockLine(l)
    requires text == Join((["---"] + entries + ["---", ""]) + [b, ""])
    ensures Parsed(text) == Document(EnterAll(entries, EntryOf), TrimLeft(Join(SplitLines(b + "\n")), IsNewline))
  {
    var dash := "---";
    var header, tail := [dash] + entries + [dash, ""], SplitLines(b + "\n");
    assert BreakFree(dash) && BreakFree("");
    StripOfStable(dash);
    PrintedSplits(header, b);
    StartsWithDashes(header, [b, ""]);
    JoinSplitIff(b);
    Slices(entries, tail, dash, "", SplitLines(text), IsClosing);
    BodyComesBack(tail);
  }

  /** The body without its outer newlines. */
  function Trimmed(body: string): string {
    TrimLeft(TrimRight(body, IsNewline), IsNewline)
  }

  /** What becomes of a body: its lines are joined by line feeds, so that it stays itself if it had no other breaks. */
  lemma BodyStaysIff(body: string)
    ensures TrimLeft(Join(SplitLines(TrimRight(body, IsNewline) + "\n")), IsNewline) == Trimmed(body)
            <==> LineFeedsOnly(body)
  {
    var right := TrimRight(body, IsNewline);
    JoinSplitIff(right);
    TrimKeepsBreaks(body);
    TrimKeepsBreaks(right);
    TrimKeepsBreaks(Join(SplitLines(right + "\n")));
  }

  // ---------------------------------------------------------------------------
  // What a reader can deliver at all
  // ---------------------------------------------------------------------------

  lemma TrimKeepsBreakFree(s: string, p: char -> bool)
    requires BreakFree(s)
    ensures BreakFree(TrimLeft(s, p)) && BreakFree(TrimRight(s, p))
  {
    forall c | c in TrimLeft(s, p) ensures c in s { }
    forall c | c in TrimRight(s, p) ensures c in s { }
  }

  lemma StripKeepsBreakFree(s: string)
    requires BreakFree(s)
    ensures BreakFree(Strip(s))
  {
    TrimKeepsBreakFree(s, IsSpace);
    TrimKeepsBreakFree(TrimLeft(s, IsSpace), IsSpace);
  }

  predicate AllBreakFree(items: seq<string>) {
    forall i :: i in items ==> BreakFree(i)
  }

  lemma {:induction false} CommaPartsBreakFree(s: string)
    requires BreakFree(s)
    ensures AllBreakFree(CommaParts(s))
    decreases |s|
  {
    var k := FirstComma(s);
    if k < |s| {
      CommaSplits(s, k);
      assert BreakFree(s[..k]) && BreakFree(s[k + 1..]);
      CommaPartsBreakFree(s[k + 1..]);
    }
  }

  lemma {:induction false} ItemsBreakFree(parts: seq<string>)
    requires AllBreakFree(parts)
    ensures AllBreakFree(Items(parts))
  {
    if parts != [] {
      var item := Strip(parts[0]);
      assert parts == [parts[0]] + parts[1..];
      StripKeepsBreakFree(parts[0]);
      TrimKeepsBreakFree(item, IsQuote);
      TrimKeepsBreakFree(TrimLeft(item, IsQuote), IsQuote);
      ItemsBreakFree(parts[1..]);
    }
  }

  lemma {:induction false} JoinedBreakFree(items: seq<string>)
    requires AllBreakFree(items)
    ensures BreakFree(JoinItems(items))
  {
    if items != [] {
      assert items[0] in items;
      JoinedBreakFree(items[1..]);
      assert BreakFree(",") && BreakFree(" ");
    }
  }

  lemma ParsedValueIsBreakFree(text: string)
    requires BreakFree(text)
    ensures BreakFree(DumpValue(ParseValue(text)))
  {
    var raw := Strip(text);
    StripKeepsBreakFree(text);
    assert BreakFree(Inside(raw));
    if Bracketed(raw) {
      var inner := Strip(Inside(raw));
      StripKeepsBreakFree(Inside(raw));
      CommaPartsBreakFree(inner);
      ItemsBreakFree(CommaParts(inner));
      JoinedBreakFree(ParseValue(text).items);
      assert BreakFree("[") && BreakFree("]");
    } else {
      assert BreakFree("\"\"");
    }
  }

  lemma StripKeepsColonAway(key: string)
    requires ':' !in key
    ensures ':' !in Strip(key)
  {
    assert forall c :: c in TrimLeft(key, IsSpace) ==> c in key;
    assert forall c :: c in Strip(key) ==> c in TrimLeft(key, IsSpace);
  }

  lemma PartsArePrintable(before: string, after: string)
    requires ':' !in before && BreakFree(before) && BreakFree(after)
    ensures PrintableEntry(Strip(before), ParseValue(after))
  {
    StripKeepsColonAway(before);
    StripIsStable(before);
    StripKeepsBreakFree(before);
    ParsedValueIsBreakFree(after);
  }

  lemma EntryIsPrintable(line: string)
    requires BreakFree(line) && EntryOf(line).Entry?
    ensures PrintableEntry(EntryOf(line).key, EntryOf(line).value)
  {
    var k := FirstColon(line);
    PartsArePrintable(line[..k], line[k + 1..]);
  }

  lemma {:induction false} EnteredAre(lines: seq<string>, entry: string -> Entry, ok: (string, Value) -> bool,
                                     k: string)
    requires forall l :: l in lines && entry(l).Entry? ==> ok(entry(l).key, entry(l).value)
    requires k in EnterAll(lines, entry)
    ensures ok(k, EnterAll(lines, entry)[k])
  {
    var front, l := lines[..|lines| - 1], lines[|lines| - 1];
    assert l in lines && forall x :: x in front ==> x in lines;
    if entry(l).Skipped? || entry(l).key != k {
      EnteredAre(front, entry, ok, k);
    }
  }

  lemma BlockIsPrintable(block: seq<string>, k: string)
    requires AllBreakFree(block) && k in EnterAll(block, EntryOf)
    ensures PrintableEntry(k, EnterAll(block, EntryOf)[k])
  {
    forall l | l in block && EntryOf(l).Entry? ensures PrintableEntry(EntryOf(l).key, EntryOf(l).value) {
      EntryIsPrintable(l);
    }
    EnteredAre(block, EntryOf, PrintableEntry, k);
  }

  /** The dict a text is read into is that of some lines of it. */
  lemma ParsedBlock(text: string) returns (block: seq<string>)
    ensures Parsed(text).meta == EnterAll(block, EntryOf)
    ensures forall l :: l in block ==> l in SplitLines(text)
  {
    var lines := SplitLines(text);
    if !StartsWith(text, "---") || lines == [] || Find(lines, 1, IsClosing) == |lines| {
      block := [];
    } else {
      block := lines[1..Find(lines, 1, IsClosing)];
    }
  }

  /** Whatever the text, every entry that is read would make one line again. */
  lemma ParsedIsPrintable(text: string, k: string)
    requires k in Parsed(text).meta
    ensures PrintableEntry(k, Parsed(text).meta[k])
  {
    var block := ParsedBlock(text);
    LinesAreBreakFree(text);
    BlockIsPrintable(block, k);
  }

  // ---------------------------------------------------------------------------
  // The whole round trip
  // ---------------------------------------------------------------------------

  /** Where every entry makes a line of its own, the dict comes back iff every value does, and the body as said. */
  lemma PrintableRoundTrip(m: Meta, body: string)
    requires IsDict(m) && Printable(m)
    ensures Parsed(Printed(m, body)).meta == m.values <==> Clean(m)
    ensures Parsed(Printed(m, body)).body == Trimmed(body) <==> LineFeedsOnly(body)
  {
    PrintableEntriesParse(m);
    EntriesAreTheDictIff(m, PrintedKeys(m), EntryOf, ReadBack, IsBlockLine);
    PrintedParses(EntryLines(PrintedKeys(m), m.values), TrimRight(body, IsNewline), Printed(m, body));
    BodyStaysIff(body);
    forall k | k in m.values ensures ReadBack(m.values[k]) == m.values[k] <==> CleanValue(m.values[k]) {
      ValueRoundTripIff(m.values[k]);
    }
  }

  /**
   Reading what `write_task` wrote gives back every entry, unknown keys included, exactly when every entry is clean, and
   everything exactly when moreover the only line breaks of the body are line feeds; outer newlines of the body aside.
   */
  lemma RoundTripIff(m: Meta, body: string)
    requires IsDict(m)
    ensures Parsed(Printed(m, body)).meta == m.values <==> Clean(m)
    ensures Parsed(Printed(m, body)) == Document(m.values, Trimmed(body)) <==> Clean(m) && LineFeedsOnly(body)
  {
    if Printable(m) {
      PrintableRoundTrip(m, body);
    } else {
      UnprintableIsLost(m, Printed(m, body));
    }
  }

  lemma UnprintableIsLost(m: Meta, text: string)
    requires !Printable(m)
    ensures Parsed(text).meta != m.values
  {
    if Parsed(text).meta == m.values {
      forall k | k in m.values ensures PrintableEntry(k, m.values[k]) {
        ParsedIsPrintable(text, k);
      }
    }
  }
}
