/**
 Bulk import of a file of domain names (src/services/csv_io.py, `parse_domain_file` and `_looks_like_csv`).
 The CSV reader, the IDN normalisation and the syntax check of names are parameters.
 */
module BulkImport {
  import opened Sequences
  import opened Text

  datatype Tools = Tools(firstColumn: string -> string, normalize: string -> Option<string>, isValid: string -> bool)

  datatype Result = Result(valid: seq<string>, invalid: seq<string>, truncated: bool, totalLines: nat)

  // ---------------------------------------------------------------------------
  // Specification
  // ---------------------------------------------------------------------------

  predicate IsSkipped(line: string) {
    Strip(line) == [] || StartsWith(Strip(line), "#")
  }

  predicate HasSeparator(s: string) {
    ',' in s || ';' in s || '\t' in s
  }

  /** One of the first twenty lines has a separator and is not skipped. */
  predicate LooksLikeCsv(lines: seq<string>) {
    exists i :: 0 <= i < |lines| && i < 20 && IsCsvLine(lines[i])
  }

  predicate IsCsvLine(line: string) {
    !IsSkipped(line) && HasSeparator(Strip(line))
  }

  /** A line that says something: the line without outer blanks and its first column. */
  datatype Entry = Entry(raw: string, token: string)

  function EntryAt(t: Tools, csv: bool, line: string): Option<Entry> {
    var raw := Strip(line);
    var token := if csv then t.firstColumn(raw) else raw;
    if IsSkipped(line) || token == [] then None else Some(Entry(raw, token))
  }

  function Entries(read: string -> Option<Entry>, lines: seq<string>): seq<Entry> {
    if lines == [] then [] else Entries(read, lines[..|lines| - 1]) + Optional(read(lines[|lines| - 1]))
  }

  predicate IsHeader(token: string) {
    Lower(token) in {"domain", "domains", "host", "hostname"}
  }

  /** Only the first entry of a CSV file can be a header. */
  function WithoutHeader(csv: bool, entries: seq<Entry>): seq<Entry> {
    if csv && entries != [] && IsHeader(entries[0].token) then entries[1..] else entries
  }

  /** The name an entry stands for, when it stands for one. */
  function NameOf(t: Tools, token: string): Option<string> {
    var name := t.normalize(token);
    if name.Some? && t.isValid(name.value) then name else None
  }

  function Names(name: string -> Option<string>, entries: seq<Entry>): seq<string> {
    if entries == [] then []
    else Names(name, entries[..|entries| - 1]) + Optional(name(entries[|entries| - 1].token))
  }

  function Rejects(name: string -> Option<string>, entries: seq<Entry>): seq<string> {
    if entries == [] then []
    else
      var last := entries[|entries| - 1];
      Rejects(name, entries[..|entries| - 1]) + if name(last.token).None? then [last.raw] else []
  }

  /** The distinct names of the entries, in order of first appearance. */
  function Distinct(name: string -> Option<string>, entries: seq<Entry>): seq<string> {
    FirstOccurrences(Names(name, entries))
  }

  /** The largest `k` up to `n` before `size` first exceeds the limit. */
  function Longest(size: nat -> nat, n: nat, max: nat): (k: nat)
    ensures k <= n
  {
    if n == 0 then 0
    else
      var front := Longest(size, n - 1, max);
      if front < n - 1 || size(n) > max then front else n
  }

  /** How many distinct names the first `k` entries have. */
  function DistinctIn(name: string -> Option<string>, entries: seq<Entry>): nat -> nat {
    (k: nat) => if k <= |entries| then |Distinct(name, entries[..k])| else 0
  }

  /** How many entries come before the one that would exceed the limit. */
  function Kept(name: string -> Option<string>, entries: seq<Entry>, max: nat): (k: nat)
    ensures k <= |entries|
  {
    Longest(DistinctIn(name, entries), |entries|, max)
  }

  function Expected(name: string -> Option<string>, entries: seq<Entry>, max: nat, totalLines: nat): Result {
    Result(Cut(Distinct(name, entries), max), Rejects(name, entries[..Kept(name, entries, max)]),
           |Distinct(name, entries)| > max, totalLines)
  }

  // ---------------------------------------------------------------------------
  // Growing by one entry
  // ---------------------------------------------------------------------------

  lemma EntriesSnoc(read: string -> Option<Entry>, lines: seq<string>, line: string)
    ensures Entries(read, lines + [line]) == Entries(read, lines) + Optional(read(line))
  {
    assert (lines + [line])[..|lines|] == lines;
  }

  lemma {:induction false} EntriesConcat(read: string -> Option<Entry>, a: seq<string>, b: seq<string>)
    ensures Entries(read, a) <= Entries(read, a + b)
    decreases |b|
  {
    if b == [] {
      assert a + b == a;
    } else {
      EntriesConcat(read, a, b[..|b| - 1]);
      ConcatFrontLast(a, b);
      EntriesSnoc(read, a + b[..|b| - 1], b[|b| - 1]);
    }
  }

  lemma NamesSnoc(name: string -> Option<string>, entries: seq<Entry>, e: Entry)
    ensures Names(name, entries + [e]) == Names(name, entries) + Optional(name(e.token))
    ensures Rejects(name, entries + [e]) == Rejects(name, entries) + if name(e.token).None? then [e.raw] else []
  {
    assert (entries + [e])[..|entries|] == entries;
  }

  /** What one more entry does to the distinct names. */
  lemma DistinctSnoc(name: string -> Option<string>, entries: seq<Entry>, e: Entry)
    ensures var before, after := Distinct(name, entries), Distinct(name, entries + [e]);
            match name(e.token)
            case None => after == before
            case Some(n) => after == if n in before then before else before + [n]
  {
    NamesSnoc(name, entries, e);
    match name(e.token)
    case None => assert Names(name, entries) + [] == Names(name, entries);
    case Some(n) =>
      FirstOccurrencesSnoc(Names(name, entries), n);
      FirstOccurrencesMember(Names(name, entries), n);
  }

  /** Distinct names only grow at the end. */
  lemma {:induction false} DistinctGrows(name: string -> Option<string>, a: seq<Entry>, b: seq<Entry>)
    ensures Distinct(name, a) <= Distinct(name, a + b)
    decreases |b|
  {
    if b == [] {
      assert a + b == a;
    } else {
      DistinctGrows(name, a, b[..|b| - 1]);
      ConcatFrontLast(a, b);
      DistinctSnoc(name, a + b[..|b| - 1], b[|b| - 1]);
    }
  }

  ghost predicate Grows(size: nat -> nat, n: nat) {
    forall i, j :: 0 <= i <= j <= n ==> size(i) <= size(j)
  }

  lemma {:induction false} LongestIs(size: nat -> nat, n: nat, max: nat, k: nat)
    requires Grows(size, n) && k <= n && size(k) <= max && (k < n ==> size(k + 1) > max)
    ensures Longest(size, n, max) == k
  {
    if n > 0 {
      LongestIs(size, n - 1, max, if k == n then n - 1 else k);
    }
  }

  lemma {:induction false} LongestIsWithin(size: nat -> nat, n: nat, max: nat)
    requires size(0) <= max
    ensures var k := Longest(size, n, max); size(k) <= max && (k < n ==> size(k + 1) > max)
  {
    if n > 0 {
      LongestIsWithin(size, n - 1, max);
    }
  }

  lemma DistinctInGrows(name: string -> Option<string>, entries: seq<Entry>)
    ensures Grows(DistinctIn(name, entries), |entries|)
  {
    var size := DistinctIn(name, entries);
    forall i: nat, j: nat | i <= j <= |entries| ensures size(i) <= size(j) {
      assert entries[..j] == entries[..i] + entries[i..j];
      DistinctGrows(name, entries[..i], entries[i..j]);
    }
  }

  /** `Kept` is the length of the longest prefix within the limit. */
  lemma KeptIs(name: string -> Option<string>, entries: seq<Entry>, max: nat, k: nat)
    requires k <= |entries| && |Distinct(name, entries[..k])| <= max
    requires k < |entries| ==> |Distinct(name, entries[..k + 1])| > max
    ensures Kept(name, entries, max) == k
  {
    DistinctInGrows(name, entries);
    LongestIs(DistinctIn(name, entries), |entries|, max, k);
  }

  // ---------------------------------------------------------------------------
  // The loops
  // ---------------------------------------------------------------------------

  /** `_looks_like_csv`. */
  method DetectCsv(lines: seq<string>) returns (csv: bool)
    ensures csv == LooksLikeCsv(lines)
  {
    var n := if |lines| < 20 then |lines| else 20;
    for i := 0 to n
      invariant forall j :: 0 <= j < i ==> !IsCsvLine(lines[j])
    {
      if IsCsvLine(lines[i]) {
        return true;
      }
    }
    csv := false;
  }

  lemma HeaderStep(csv: bool, all: seq<Entry>, e: Entry)
    ensures WithoutHeader(csv, all + [e])
         == if csv && all == [] && IsHeader(e.token) then [] else WithoutHeader(csv, all) + [e]
  {
    if csv && all != [] && IsHeader(all[0].token) {
      assert (all + [e])[1..] == all[1..] + [e];
    }
  }

  lemma HeaderPrefix(csv: bool, a: seq<Entry>, b: seq<Entry>)
    requires a != [] && a <= b
    ensures WithoutHeader(csv, a) <= WithoutHeader(csv, b)
  {
    assert a[0] == b[0];
  }

  lemma PrefixParts(kept: seq<Entry>, e: Entry, all: seq<Entry>)
    requires kept + [e] <= all
    ensures |kept| < |all| && all[..|kept|] == kept && all[..|kept| + 1] == kept + [e]
    ensures all == (kept + [e]) + all[|kept| + 1..]
  {
  }

  lemma CutOfPrefix(few: seq<string>, many: seq<string>, name: string, max: nat)
    requires |few| <= max && few + [name] <= many && |few + [name]| > max
    ensures |few| == max && Cut(many, max) == few && |many| > max
  {
  }

  /** The first name beyond the limit settles the whole result. */
  lemma LimitReached(name: string -> Option<string>, kept: seq<Entry>, e: Entry, all: seq<Entry>, max: nat)
    requires kept + [e] <= all && |Distinct(name, kept)| <= max
    requires |Distinct(name, kept + [e])| > max
    ensures |Distinct(name, kept)| == max
    ensures Cut(Distinct(name, all), max) == Distinct(name, kept) && |Distinct(name, all)| > max
    ensures Kept(name, all, max) == |kept| && all[..Kept(name, all, max)] == kept
  {
    PrefixParts(kept, e, all);
    DistinctSnoc(name, kept, e);
    KeptIs(name, all, max, |kept|);
    DistinctGrows(name, kept + [e], all[|kept| + 1..]);
    CutOfPrefix(Distinct(name, kept), Distinct(name, all), name(e.token).value, max);
  }

  lemma WithinLimit(name: string -> Option<string>, all: seq<Entry>, max: nat)
    requires |Distinct(name, all)| <= max
    ensures Kept(name, all, max) == |all| && all[..|all|] == all
  {
    assert all[..|all|] == all;
    KeptIs(name, all, max, |all|);
  }

  /** The variables of the loop. */
  datatype Progress = Progress(header: bool, seen: set<string>, valid: seq<string>, invalid: seq<string>)

  /** What they are after the lines that have the entries `all`. */
  ghost predicate Agrees(name: string -> Option<string>, csv: bool, all: seq<Entry>, max: nat, p: Progress) {
    && (csv ==> (p.header <==> all != []))
    && p.valid == Distinct(name, WithoutHeader(csv, all)) && |p.valid| <= max
    && (forall x :: x in p.seen <==> x in p.valid)
    && p.invalid == Rejects(name, WithoutHeader(csv, all))
  }

  lemma EntryRejected(name: string -> Option<string>, csv: bool, all: seq<Entry>, max: nat, p: Progress, e: Entry)
    requires Agrees(name, csv, all, max, p) && name(e.token).None?
    requires !(csv && all == [] && IsHeader(e.token))
    ensures Agrees(name, csv, all + [e], max, p.(header := true, invalid := p.invalid + [e.raw]))
  {
    var kept := WithoutHeader(csv, all);
    HeaderStep(csv, all, e);
    DistinctSnoc(name, kept, e);
    NamesSnoc(name, kept, e);
  }

  lemma EntryRepeated(name: string -> Option<string>, csv: bool, all: seq<Entry>, max: nat, p: Progress, e: Entry)
    requires Agrees(name, csv, all, max, p) && name(e.token).Some? && name(e.token).value in p.seen
    requires !(csv && all == [] && IsHeader(e.token))
    ensures Agrees(name, csv, all + [e], max, p.(header := true))
  {
    var kept := WithoutHeader(csv, all);
    HeaderStep(csv, all, e);
    DistinctSnoc(name, kept, e);
    NamesSnoc(name, kept, e);
    assert Rejects(name, kept) + [] == Rejects(name, kept);
  }

  lemma EntryIsNew(name: string -> Option<string>, csv: bool, all: seq<Entry>, max: nat, p: Progress, e: Entry,
                   n: string)
    requires Agrees(name, csv, all, max, p) && name(e.token) == Some(n) && n !in p.seen
    requires !(csv && all == [] && IsHeader(e.token))
    ensures Distinct(name, WithoutHeader(csv, all + [e])) == p.valid + [n]
    ensures WithoutHeader(csv, all + [e]) == WithoutHeader(csv, all) + [e]
    ensures |p.valid| < max ==>
      Agrees(name, csv, all + [e], max, p.(header := true, seen := p.seen + {n}, valid := p.valid + [n]))
  {
    var kept := WithoutHeader(csv, all);
    HeaderStep(csv, all, e);
    DistinctSnoc(name, kept, e);
    NamesSnoc(name, kept, e);
    assert Rejects(name, kept) + [] == Rejects(name, kept);
  }

  lemma EntryIsHeader(name: string -> Option<string>, csv: bool, max: nat, p: Progress, e: Entry)
    requires Agrees(name, csv, [], max, p) && csv && IsHeader(e.token)
    ensures Agrees(name, csv, [e], max, p.(header := true))
  {
    HeaderStep(csv, [], e);
    assert [] + [e] == [e];
  }

  /** The body of the loop for one entry; `full` is the way out through `break`. */
  method TakeEntry(name: string -> Option<string>, csv: bool, ghost all: seq<Entry>, max: nat, p: Progress, e: Entry)
      returns (p': Progress, full: bool)
    requires Agrees(name, csv, all, max, p)
    ensures !full ==> Agrees(name, csv, all + [e], max, p')
    ensures full ==> p'.valid == p.valid && p'.invalid == p.invalid
    ensures full ==> var kept := WithoutHeader(csv, all);
                     WithoutHeader(csv, all + [e]) == kept + [e] && |Distinct(name, kept + [e])| > max
  {
    if csv && !p.header && IsHeader(e.token) {
      EntryIsHeader(name, csv, max, p, e);
      assert all + [e] == [e];
      return p.(header := true), false;
    }
    var n := name(e.token);
    if n.None? {
      EntryRejected(name, csv, all, max, p, e);
      return p.(header := true, invalid := p.invalid + [e.raw]), false;
    }
    if n.value in p.seen {
      EntryRepeated(name, csv, all, max, p, e);
      return p.(header := true), false;
    }
    EntryIsNew(name, csv, all, max, p, e, n.value);
    if |p.valid| >= max {
      return p.(header := true, seen := p.seen + {n.value}), true;
    }
    return p.(header := true, seen := p.seen + {n.value}, valid := p.valid + [n.value]), false;
  }

  lemma EntryAmongLines(read: string -> Option<Entry>, csv: bool, before: seq<string>, line: string, after: seq<string>,
                        e: Entry)
    requires read(line) == Some(e)
    ensures Entries(read, before + [line]) == Entries(read, before) + [e]
    ensures WithoutHeader(csv, Entries(read, before) + [e])
         <= WithoutHeader(csv, Entries(read, before + [line] + after))
  {
    EntriesSnoc(read, before, line);
    EntriesConcat(read, before + [line], after);
    HeaderPrefix(csv, Entries(read, before) + [e], Entries(read, before + [line] + after));
  }

  /** The entries read up to a line are a prefix of all entries, with and without the header. */
  lemma EntriesPrefix(read: string -> Option<Entry>, csv: bool, lines: seq<string>, i: nat, e: Entry)
    requires i < |lines| && read(lines[i]) == Some(e)
    ensures Entries(read, lines[..i + 1]) == Entries(read, lines[..i]) + [e]
    ensures WithoutHeader(csv, Entries(read, lines[..i]) + [e]) <= WithoutHeader(csv, Entries(read, lines))
  {
    LinesAround(lines, i);
    EntryAmongLines(read, csv, lines[..i], lines[i], lines[i + 1..], e);
  }

  lemma LinesAround(lines: seq<string>, i: nat)
    requires i < |lines|
    ensures lines[..i + 1] == lines[..i] + [lines[i]] && lines == lines[..i] + [lines[i]] + lines[i + 1..]
  {
  }

  lemma NoEntry(read: string -> Option<Entry>, lines: seq<string>, i: nat)
    requires i < |lines| && read(lines[i]).None?
    ensures Entries(read, lines[..i + 1]) == Entries(read, lines[..i])
  {
    assert lines[..i + 1] == lines[..i] + [lines[i]];
    EntriesSnoc(read, lines[..i], lines[i]);
    assert Entries(read, lines[..i]) + [] == Entries(read, lines[..i]);
  }

  /** Line `i` brings a name beyond the limit. */
  ghost predicate GoesBeyond(read: string -> Option<Entry>, name: string -> Option<string>, csv: bool,
                             lines: seq<string>, i: nat, kept: seq<Entry>, max: nat)
    requires i < |lines|
  {
    && read(lines[i]).Some? && WithoutHeader(csv, Entries(read, lines[..i + 1])) == kept + [read(lines[i]).value]
    && |Distinct(name, kept)| == max && |Distinct(name, kept + [read(lines[i]).value])| > max
  }

  /** The loop of `parse_domain_file`. */
  method ReadEntries(read: string -> Option<Entry>, name: string -> Option<string>, csv: bool, lines: seq<string>,
                     max: nat)
      returns (r: Result, ghost cut: nat)
    ensures r == Expected(name, WithoutHeader(csv, Entries(read, lines)), max, |lines|)
    ensures cut <= |lines| && (r.truncated <==> cut < |lines|)
    ensures var kept := WithoutHeader(csv, Entries(read, lines[..cut]));
            && r.valid == Distinct(name, kept) && r.invalid == Rejects(name, kept)
            && (r.truncated ==> GoesBeyond(read, name, csv, lines, cut, kept, max))
  {
    var p := Progress(false, {}, [], []);
    for i := 0 to |lines|
      invariant Agrees(name, csv, Entries(read, lines[..i]), max, p)
    {
      var entry := read(lines[i]);
      if entry.None? {
        NoEntry(read, lines, i);
        continue;
      }
      EntriesPrefix(read, csv, lines, i, entry.value);
      ghost var all := Entries(read, lines[..i]);
      var next, full := TakeEntry(name, csv, all, max, p, entry.value);
      if full {
        LimitReached(name, WithoutHeader(csv, all), entry.value, WithoutHeader(csv, Entries(read, lines)), max);
        return Result(p.valid, p.invalid, true, |lines|), i;
      }
      p := next;
    }
    assert lines[..|lines|] == lines;
    WithinLimit(name, WithoutHeader(csv, Entries(read, lines)), max);
    r, cut := Result(p.valid, p.invalid, false, |lines|), |lines|;
  }

  // ---------------------------------------------------------------------------
  // What a user can rely on
  // ---------------------------------------------------------------------------

  lemma KeptIsWithinLimit(name: string -> Option<string>, entries: seq<Entry>, max: nat)
    ensures var k := Kept(name, entries, max);
            && |Distinct(name, entries[..k])| <= max
            && (k < |entries| ==> |Distinct(name, entries[..k + 1])| > max)
  {
    assert Distinct(name, entries[..0]) == [];
    LongestIsWithin(DistinctIn(name, entries), |entries|, max);
  }

  lemma EntriesAround(entries: seq<Entry>, k: nat)
    requires k < |entries|
    ensures entries[..k + 1] == entries[..k] + [entries[k]] && entries[..k] + [entries[k]] <= entries
  {
  }

  /** The valid names are the distinct names of the entries before the cut. */
  lemma ValidAreDistinctBeforeCut(name: string -> Option<string>, entries: seq<Entry>, max: nat)
    ensures Cut(Distinct(name, entries), max) == Distinct(name, entries[..Kept(name, entries, max)])
    ensures |Distinct(name, entries)| > max <==> Kept(name, entries, max) < |entries|
  {
    var k := Kept(name, entries, max);
    KeptIsWithinLimit(name, entries, max);
    if k == |entries| {
      assert entries[..k] == entries;
    } else {
      EntriesAround(entries, k);
      LimitReached(name, entries[..k], entries[k], entries, max);
    }
  }

  lemma {:induction false} NamedOrRejected(name: string -> Option<string>, entries: seq<Entry>, e: Entry)
    requires e in entries
    ensures match name(e.token) case None => e.raw in Rejects(name, entries) case Some(n) => n in Names(name, entries)
  {
    var front, last := entries[..|entries| - 1], entries[|entries| - 1];
    assert entries == front + [last];
    if e != last {
      NamedOrRejected(name, front, e);
    }
  }

  /** Before the cut no line is lost: its name is among the valid ones, or the line among the invalid ones. */
  lemma NothingIsLost(name: string -> Option<string>, entries: seq<Entry>, max: nat, k: nat)
    requires k < Kept(name, entries, max)
    ensures match name(entries[k].token)
            case None => entries[k].raw in Expected(name, entries, max, 0).invalid
            case Some(n) => n in Expected(name, entries, max, 0).valid
  {
    var kept := entries[..Kept(name, entries, max)];
    assert entries[k] == kept[k] && kept[k] in kept;
    NamedOrRejected(name, kept, entries[k]);
    ValidAreDistinctBeforeCut(name, entries, max);
    match name(entries[k].token)
    case None =>
    case Some(n) => FirstOccurrencesMember(Names(name, kept), n);
  }

  lemma NoNameTwice(name: string -> Option<string>, entries: seq<Entry>, max: nat, totalLines: nat)
    ensures NoDuplicates(Expected(name, entries, max, totalLines).valid)
    ensures |Expected(name, entries, max, totalLines).valid| <= max
  {
    FirstOccurrencesElements(Names(name, entries));
    CutKeepsDistinct(Distinct(name, entries), max);
  }
}
