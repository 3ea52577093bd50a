/**
 What printing and reading a task file mean, said of the text itself (scripts/handoff.py): which lines a dict becomes,
 and what the lines of an arbitrary text say.
 */
module TaskText {
  import opened Sequences
  import opened Selections
  import opened Text
  import opened Lines
  import opened FrontmatterValues
  import opened Frontmatter

  // ---------------------------------------------------------------------------
  // Values
  // ---------------------------------------------------------------------------

  lemma {:induction false} JoinItemsConcat(a: seq<string>, b: seq<string>)
    requires a != [] && b != []
    ensures JoinItems(a + b) == JoinItems(a) + ", " + JoinItems(b)
  {
    if |a| == 1 {
      assert (a + b)[1..] == b && (a + b)[0] == a[0];
      assert JoinItems(a + b) == a[0] + "," + (" " + JoinItems(b));
    } else {
      var rest := a[1..];
      JoinItemsConcat(rest, b);
      assert (a + b)[1..] == rest + b && (a + b)[0] == a[0];
      assert a[0] + "," + (" " + (JoinItems(rest) + ", " + JoinItems(b)))
          == (a[0] + "," + (" " + JoinItems(rest))) + ", " + JoinItems(b);
    }
  }

  /** A list is printed in brackets, a comma and a blank between any two parts of it; an empty text as two quotes. */
  lemma DumpValueIs(a: seq<string>, b: seq<string>, text: string)
    ensures DumpValue(List([])) == "[]" && DumpValue(List([text])) == "[" + text + "]"
    ensures a != [] && b != [] ==>
              exists x, y :: DumpValue(List(a)) == "[" + x + "]" && DumpValue(List(b)) == "[" + y + "]"
                             && DumpValue(List(a + b)) == "[" + x + ", " + y + "]"
    ensures DumpValue(Scalar(text)) == if text == "" then "\"\"" else text
  {
    if a != [] && b != [] {
      JoinItemsConcat(a, b);
      var x, y := JoinItems(a), JoinItems(b);
      assert "[" + (x + ", " + y) + "]" == "[" + x + ", " + y + "]";
    }
  }

  /** A text is read as a list between brackets, as what stands between quotes of one kind, else as it is. */
  lemma ParseValueIs(text: string)
    ensures var s, v := Strip(text), ParseValue(text);
            && (v.List? <==> s != [] && s[0] == '[' && s[|s| - 1] == ']')
            && (v.Scalar? ==> v.text == if IsInQuotes(s) then s[1..|s| - 1] else if s in {"\"", "'"} then [] else s)
  {
    ParseStrippedIs(Strip(text));
  }

  predicate IsInQuotes(s: string) {
    |s| >= 2 && ((s[0] == '"' && s[|s| - 1] == '"') || (s[0] == '\'' && s[|s| - 1] == '\''))
  }

  lemma ParseStrippedIs(s: string)
    ensures var v := ParseStripped(s);
            && (v.List? <==> s != [] && s[0] == '[' && s[|s| - 1] == ']')
            && (v.Scalar? ==> v.text == if IsInQuotes(s) then s[1..|s| - 1] else if s in {"\"", "'"} then [] else s)
  {
    if |s| == 1 {
      assert s == [s[0]];
    }
  }

  // ---------------------------------------------------------------------------
  // Printing
  // ---------------------------------------------------------------------------

  function Known(values: map<string, Value>): string -> Option<string> {
    key => if key in values then Some(key) else None
  }

  function Unknown(fields: seq<string>): string -> Option<string> {
    key => if key in fields then None else Some(key)
  }

  lemma KnownKeysNext(values: map<string, Value>, front: seq<string>, last: string)
    ensures var keys, all := KnownKeys(values, front), KnownKeys(values, front + [last]);
            if Known(values)(last).Some? then all == keys + [Known(values)(last).value] else all == keys
  {
    assert (front + [last])[..|front|] == front && (front + [last])[..|front| + 1] == front + [last];
    KnownKeysPrefix(values, front + [last], |front|);
  }

  lemma UnknownKeysNext(front: seq<string>, last: string, fields: seq<string>)
    ensures var keys, all := UnknownKeys(front, fields), UnknownKeys(front + [last], fields);
            if Unknown(fields)(last).Some? then all == keys + [Unknown(fields)(last).value] else all == keys
  {
    assert (front + [last])[..|front|] == front && (front + [last])[..|front| + 1] == front + [last];
    UnknownKeysPrefix(front + [last], fields, |front|);
  }

  lemma {:induction false} KnownKeysAre(values: map<string, Value>, fields: seq<string>)
    ensures Selects(Known(values), fields, KnownKeys(values, fields))
  {
    if fields == [] {
      SelectsNothing<string, string>(Known(values));
    } else {
      var front, last := fields[..|fields| - 1], fields[|fields| - 1];
      assert fields == front + [last];
      KnownKeysAre(values, front);
      KnownKeysNext(values, front, last);
      SelectsNext(Known(values), front, last, KnownKeys(values, front), KnownKeys(values, fields));
    }
  }

  lemma {:induction false} UnknownKeysAre(order: seq<string>, fields: seq<string>)
    ensures Selects(Unknown(fields), order, UnknownKeys(order, fields))
  {
    if order == [] {
      SelectsNothing<string, string>(Unknown(fields));
    } else {
      var front, last := order[..|order| - 1], order[|order| - 1];
      assert order == front + [last];
      UnknownKeysAre(front, fields);
      UnknownKeysNext(front, last, fields);
      SelectsNext(Unknown(fields), front, last, UnknownKeys(front, fields), UnknownKeys(order, fields));
    }
  }

  /** The fields the dict has, in their fixed order, then its other keys, in its own. */
  ghost predicate AreKeys(m: Meta, keys: seq<string>) {
    exists known, unknown ::
      && Selects(Known(m.values), TASK_FIELDS, known) && Selects(Unknown(TASK_FIELDS), m.order, unknown)
      && keys == known + unknown
  }

  lemma PrintedKeysAre(m: Meta)
    ensures AreKeys(m, PrintedKeys(m))
  {
    KnownKeysAre(m.values, TASK_FIELDS);
    UnknownKeysAre(m.order, TASK_FIELDS);
  }

  /** One line for each key: the key, a colon, a blank, the printed value. */
  predicate AreEntries(keys: seq<string>, values: map<string, Value>, lines: seq<string>) {
    && |lines| == |keys|
    && forall i :: 0 <= i < |keys| ==> keys[i] in values && lines[i] == keys[i] + ": " + DumpValue(values[keys[i]])
  }

  lemma EntryLineIs(key: string, v: Value)
    ensures EntryLine(key, v) == key + ": " + DumpValue(v)
  {
  }

  lemma {:induction false} EntryLinesAreEntries(keys: seq<string>, values: map<string, Value>)
    requires forall k :: k in keys ==> k in values
    ensures AreEntries(keys, values, EntryLines(keys, values))
  {
    if keys != [] {
      var front, key := keys[..|keys| - 1], keys[|keys| - 1];
      EntryLinesAreEntries(front, values);
      EntryLineIs(key, values[key]);
    }
  }

  predicate AllNewlines(s: string) {
    forall c :: c in s ==> c == '\n'
  }

  /** `kept` is the text without its final line feeds. */
  predicate IsWithoutFinal(text: string, kept: string) {
    && kept <= text && AllNewlines(text[|kept|..]) && (kept != [] ==> kept[|kept| - 1] != '\n')
  }

  lemma TrimRightIs(text: string)
    ensures IsWithoutFinal(text, TrimRight(text, IsNewline))
  {
    var kept := TrimRight(text, IsNewline);
    forall c | c in text[|kept|..] ensures c == '\n' {
      var i :| |kept| <= i < |text| && text[i] == c;
    }
    assert kept != [] ==> kept[|kept| - 1] == text[|kept| - 1];
  }

  lemma PrintedWith(m: Meta, body: string, keys: seq<string>)
    requires IsDict(m) && keys == PrintedKeys(m)
    ensures AreEntries(keys, m.values, EntryLines(keys, m.values))
    ensures Printed(m, body)
         == Join((["---"] + EntryLines(keys, m.values) + ["---", ""]) + [TrimRight(body, IsNewline), ""])
  {
    EntryLinesAreEntries(keys, m.values);
  }

  /** The printed text, line by line: dashes, one line for each key, dashes, an empty line, the body. */
  lemma PrintedIs(m: Meta, body: string) returns (keys: seq<string>, entries: seq<string>, kept: string)
    requires IsDict(m)
    ensures AreKeys(m, keys) && AreEntries(keys, m.values, entries) && IsWithoutFinal(body, kept)
    ensures Printed(m, body) == Join((["---"] + entries + ["---", ""]) + [kept, ""])
  {
    keys := PrintedKeys(m);
    entries, kept := EntryLines(keys, m.values), TrimRight(body, IsNewline);
    PrintedKeysAre(m);
    PrintedWith(m, body, keys);
    TrimRightIs(body);
  }

  // ---------------------------------------------------------------------------
  // Reading
  // ---------------------------------------------------------------------------

  /** Three dashes, outer blanks aside. */
  predicate IsDashesAt(line: string, k: nat) {
    k + 3 <= |line| && AllBlank(line[..k]) && line[k..k + 3] == "---" && AllBlank(line[k + 3..])
  }

  ghost predicate IsDashes(line: string) {
    exists k: nat :: IsDashesAt(line, k)
  }

  lemma IsClosingIff(line: string)
    ensures IsClosing(line) <==> IsDashes(line)
  {
    var k, m := StripShape(line);
    if IsClosing(line) {
      assert IsDashesAt(line, k);
    }
    if i: nat :| IsDashesAt(line, i) {
      DashesAreStripped(line, i, k, m);
    }
  }

  lemma DashesAreStripped(line: string, i: nat, k: nat, m: nat)
    requires IsDashesAt(line, i) && k <= m <= |line| && AllBlank(line[..k]) && AllBlank(line[m..])
    requires k < m ==> !IsSpace(line[k]) && !IsSpace(line[m - 1])
    ensures k == i && m == i + 3
  {
    assert line[i] == line[i..i + 3][0] == '-' && line[i + 2] == line[i..i + 3][2] == '-';
    NotBefore(line, k, i);
    NotBehind(line, m, i + 2);
    NotBefore(line, i, k);
    NotBehind(line, i + 3, m - 1);
  }

  /** The block is `lines[1..end]`: `end` is the first line of dashes behind the first line. */
  ghost predicate EndsBlock(lines: seq<string>, end: nat) {
    1 <= end < |lines| && IsDashes(lines[end]) && forall i :: 1 <= i < end ==> !IsDashes(lines[i])
  }

  /** What stands before the first colon of the line is the key, what stands behind it is read as the value. */
  predicate SaysAt(parse: string -> Value, line: string, key: string, v: Value, c: nat) {
    c < |line| && line[c] == ':' && ':' !in line[..c] && key == Strip(line[..c]) && v == parse(line[c + 1..])
  }

  ghost predicate Says(parse: string -> Value, line: string, key: string, v: Value) {
    exists c: nat :: SaysAt(parse, line, key, v, c)
  }

  ghost predicate SaysNothingOf(parse: string -> Value, line: string, key: string) {
    forall v :: !Says(parse, line, key, v)
  }

  function EntryBy(parse: string -> Value, line: string): Entry {
    var k := FirstColon(line);
    if k == |line| then Skipped else Entry(Strip(line[..k]), parse(line[k + 1..]))
  }

  lemma FirstColonIs(line: string, c: nat)
    requires c < |line| && line[c] == ':' && ':' !in line[..c]
    ensures FirstColon(line) == c
  {
    forall i | 0 <= i < c ensures line[i] != ':' {
      assert line[i] == line[..c][i] && line[..c][i] in line[..c];
    }
  }

  lemma EntryByIff(parse: string -> Value, line: string, key: string, v: Value)
    ensures EntryBy(parse, line) == Entry(key, v) <==> Says(parse, line, key, v)
  {
    var k := FirstColon(line);
    if EntryBy(parse, line) == Entry(key, v) {
      assert ':' !in line[..k];
      assert SaysAt(parse, line, key, v, k);
    }
    if c: nat :| SaysAt(parse, line, key, v, c) {
      FirstColonIs(line, c);
    }
  }

  /** A line without a colon says nothing; one with a colon is never blank. */
  lemma EntryOfIs(line: string)
    ensures EntryOf(line) == EntryBy(ParseValue, line)
  {
    var k := FirstColon(line);
    if k < |line| {
      assert line[k] in line;
      ColonStays(line);
    }
  }

  /** Line `i` says `v` of the key, and no line between it and `end` says anything of it. */
  ghost predicate SaidAt(parse: string -> Value, lines: seq<string>, end: nat, key: string, v: Value, i: nat) {
    && 1 <= i < end <= |lines| && Says(parse, lines[i], key, v)
    && forall j :: i < j < end ==> SaysNothingOf(parse, lines[j], key)
  }

  /** The last of the lines before `end` that says anything of the key says `v`. */
  ghost predicate SaidLast(parse: string -> Value, lines: seq<string>, end: nat, key: string, v: Value) {
    exists i: nat :: SaidAt(parse, lines, end, key, v, i)
  }

  predicate HoldsEntry(meta: map<string, Value>, key: string, v: Value) {
    key in meta && meta[key] == v
  }

  /** What an entry says of the key. */
  function ToldOf(e: Entry, key: string): Option<Value> {
    if e.Entry? && e.key == key then Some(e.value) else None
  }

  predicate LastAt(told: nat -> Option<Value>, end: nat, v: Value, i: nat) {
    1 <= i < end && told(i) == Some(v) && forall j :: i < j < end ==> told(j).None?
  }

  /** The dict of the first lines of a block holds what is told last of the key. */
  lemma {:induction false} EnterAllIs(entry: string -> Entry, told: nat -> Option<Value>, lines: seq<string>, end: nat,
                                      key: string, v: Value)
    requires 1 <= end <= |lines| && forall i: nat :: i < |lines| ==> told(i) == ToldOf(entry(lines[i]), key)
    ensures HoldsEntry(EnterAll(lines[1..end], entry), key, v) <==> exists i: nat :: LastAt(told, end, v, i)
  {
    if end > 1 {
      var earlier, line := lines[1..end - 1], lines[end - 1];
      EnterAllIs(entry, told, lines, end - 1, key, v);
      assert lines[1..end] == earlier + [line];
      EnterAllSnoc(earlier, line, entry);
      LastSnoc(told, end - 1, end, v);
    }
  }

  lemma LastSnoc(told: nat -> Option<Value>, end: nat, next: nat, v: Value)
    requires 1 <= end < next == end + 1
    ensures (exists i: nat :: LastAt(told, next, v, i))
       <==> told(end) == Some(v) || (told(end).None? && exists i: nat :: LastAt(told, end, v, i))
  {
    if i: nat :| LastAt(told, next, v, i) {
      assert i < end ==> LastAt(told, end, v, i);
    }
    if told(end) == Some(v) {
      assert LastAt(told, next, v, end);
    }
    if i: nat :| LastAt(told, end, v, i) {
      assert told(end).None? ==> LastAt(told, next, v, i);
    }
  }

  lemma ToldIff(parse: string -> Value, line: string, key: string, v: Value)
    ensures ToldOf(EntryBy(parse, line), key) == Some(v) <==> Says(parse, line, key, v)
  {
    EntryByIff(parse, line, key, v);
  }

  lemma NotToldIff(parse: string -> Value, line: string, key: string)
    ensures ToldOf(EntryBy(parse, line), key).None? <==> SaysNothingOf(parse, line, key)
  {
    var told := ToldOf(EntryBy(parse, line), key);
    if told.Some? {
      ToldIff(parse, line, key, told.value);
    } else {
      forall v ensures !Says(parse, line, key, v) {
        ToldIff(parse, line, key, v);
      }
    }
  }

  lemma LastIsSaidLast(parse: string -> Value, told: nat -> Option<Value>, lines: seq<string>, end: nat, key: string,
                       v: Value)
    requires 1 <= end <= |lines| && forall i: nat :: i < |lines| ==> told(i) == ToldOf(EntryBy(parse, lines[i]), key)
    ensures (exists i: nat :: LastAt(told, end, v, i)) <==> SaidLast(parse, lines, end, key, v)
  {
    forall i: nat | i < |lines|
      ensures told(i) == Some(v) <==> Says(parse, lines[i], key, v)
      ensures told(i).None? <==> SaysNothingOf(parse, lines[i], key)
    {
      ToldIff(parse, lines[i], key, v);
      NotToldIff(parse, lines[i], key);
    }
    forall i: nat ensures LastAt(told, end, v, i) <==> SaidAt(parse, lines, end, key, v, i) {
    }
  }

  /** `kept` is the text without its first line feeds. */
  predicate IsWithoutFirst(text: string, kept: string) {
    && |kept| <= |text| && text[|text| - |kept|..] == kept && AllNewlines(text[..|text| - |kept|])
    && (kept != [] ==> kept[0] != '\n')
  }

  lemma TrimLeftIs(text: string)
    ensures IsWithoutFirst(text, TrimLeft(text, IsNewline))
  {
    var kept := TrimLeft(text, IsNewline);
    var k := |text| - |kept|;
    assert kept == text[k..];
    forall c | c in text[..k] ensures c == '\n' {
      var i :| 0 <= i < k && text[i] == c;
    }
  }

  /** The dict holds what is said last of each key, and the body is the lines behind the block. */
  ghost predicate IsBlockAndBody(lines: seq<string>, end: nat, doc: Document)
    requires end < |lines|
  {
    && IsWithoutFirst(Join(lines[end + 1..]), doc.body)
    && forall key, v :: HoldsEntry(doc.meta, key, v) <==> SaidLast(ParseValue, lines, end, key, v)
  }

  lemma HeldIsSaidLast(lines: seq<string>, end: nat, key: string, v: Value)
    requires 1 <= end < |lines|
    ensures HoldsEntry(EnterAll(lines[1..end], EntryOf), key, v) <==> SaidLast(ParseValue, lines, end, key, v)
  {
    var told := i => if 0 <= i < |lines| then ToldOf(EntryOf(lines[i]), key) else None;
    forall i: nat | i < |lines| ensures told(i) == ToldOf(EntryBy(ParseValue, lines[i]), key) {
      EntryOfIs(lines[i]);
    }
    EnterAllIs(EntryOf, told, lines, end, key, v);
    LastIsSaidLast(ParseValue, told, lines, end, key, v);
  }

  lemma BlockIs(lines: seq<string>, end: nat)
    requires 1 <= end < |lines|
    ensures IsBlockAndBody(lines, end, Document(EnterAll(lines[1..end], EntryOf),
                                                TrimLeft(Join(lines[end + 1..]), IsNewline)))
  {
    TrimLeftIs(Join(lines[end + 1..]));
    forall key, v
      ensures HoldsEntry(EnterAll(lines[1..end], EntryOf), key, v) <==> SaidLast(ParseValue, lines, end, key, v)
    {
      HeldIsSaidLast(lines, end, key, v);
    }
  }

  lemma EndIs(lines: seq<string>, end: nat)
    requires lines != []
    ensures EndsBlock(lines, end) <==> end < |lines| && end == Find(lines, 1, IsClosing)
  {
    forall line ensures IsClosing(line) <==> IsDashes(line) {
      IsClosingIff(line);
    }
    if EndsBlock(lines, end) {
      FindIs(lines, 1, end, IsClosing);
    }
  }

  lemma ParsedCases(text: string, end: nat)
    requires "---" <= text && SplitLines(text) != [] && end == Find(SplitLines(text), 1, IsClosing)
    ensures var lines := SplitLines(text);
            Parsed(text) == if end == |lines| then Document(map[], text)
                            else Document(EnterAll(lines[1..end], EntryOf), TrimLeft(Join(lines[end + 1..]), IsNewline))
  {
  }

  /** What is read from a text that begins with dashes and has a whole block, said of its lines. */
  lemma ParsedIs(text: string, end: nat)
    requires "---" <= text && EndsBlock(SplitLines(text), end)
    ensures IsBlockAndBody(SplitLines(text), end, Parsed(text))
  {
    EndIs(SplitLines(text), end);
    ParsedCases(text, end);
    BlockIs(SplitLines(text), end);
  }

  /** Any other text is read as it is. */
  lemma OtherTextIsBody(text: string)
    requires !("---" <= text) || forall end :: !EndsBlock(SplitLines(text), end)
    ensures Parsed(text) == Document(map[], text)
  {
    if "---" <= text {
      var end := Find(SplitLines(text), 1, IsClosing);
      EndIs(SplitLines(text), end);
      ParsedCases(text, end);
    }
  }
}
