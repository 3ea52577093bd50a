/**
 What `parse_domain_file` returns (src/services/csv_io.py), said of the lines of the file.
 */
module ImportedFile {
  import opened Sequences
  import opened Text
  import opened Lines
  import opened BulkImport

  // ---------------------------------------------------------------------------
  // From entries to lines, for any reading of lines and tokens
  // ---------------------------------------------------------------------------

  /** The line is the header: the first one that has an entry, in a CSV file. */
  predicate IsHeaderAt(read: string -> Option<Entry>, csv: bool, lines: seq<string>, i: nat)
    requires i < |lines|
  {
    && csv && read(lines[i]).Some? && IsHeader(read(lines[i]).value.token)
    && forall j :: 0 <= j < i ==> read(lines[j]).None?
  }

  /** The entry of a line that is not the header. */
  function EntryOfLine(read: string -> Option<Entry>, csv: bool, lines: seq<string>): nat -> Option<Entry> {
    (i: nat) => if i >= |lines| || IsHeaderAt(read, csv, lines, i) then None else read(lines[i])
  }

  function NameOfLine(read: string -> Option<Entry>, name: string -> Option<string>, csv: bool, lines: seq<string>)
      : nat -> Option<string>
  {
    (i: nat) =>
      var e := EntryOfLine(read, csv, lines)(i);
      if e.None? then None else name(e.value.token)
  }

  function RejectOfLine(read: string -> Option<Entry>, name: string -> Option<string>, csv: bool, lines: seq<string>)
      : nat -> Option<string>
  {
    (i: nat) =>
      var e := EntryOfLine(read, csv, lines)(i);
      if e.None? || name(e.value.token).Some? then None else Some(e.value.raw)
  }

  lemma {:induction false} NoEntriesIff(read: string -> Option<Entry>, lines: seq<string>)
    ensures Entries(read, lines) == [] <==> forall j :: 0 <= j < |lines| ==> read(lines[j]).None?
  {
    if lines != [] {
      var front := lines[..|lines| - 1];
      assert lines == front + [lines[|lines| - 1]];
      NoEntriesIff(read, front);
      assert forall j :: 0 <= j < |front| ==> front[j] == lines[j];
    }
  }

  lemma IsHeaderIff(read: string -> Option<Entry>, csv: bool, lines: seq<string>, k: nat)
    requires k < |lines| && read(lines[k]).Some?
    ensures IsHeaderAt(read, csv, lines, k)
       <==> csv && IsHeader(read(lines[k]).value.token) && Entries(read, lines[..k]) == []
  {
    NoEntriesIff(read, lines[..k]);
    assert forall j :: 0 <= j < k ==> lines[..k][j] == lines[j];
  }

  /** The entries of the first `k` lines, without the header. */
  function EntriesBefore(read: string -> Option<Entry>, csv: bool, lines: seq<string>, k: nat): seq<Entry>
    requires k <= |lines|
  {
    WithoutHeader(csv, Entries(read, lines[..k]))
  }

  lemma EntriesStep(read: string -> Option<Entry>, csv: bool, lines: seq<string>, k: nat)
    requires k < |lines|
    ensures var e, before := EntryOfLine(read, csv, lines)(k), EntriesBefore(read, csv, lines, k);
            EntriesBefore(read, csv, lines, k + 1) == if e.Some? then before + [e.value] else before
  {
    if read(lines[k]).None? {
      NoEntry(read, lines, k);
    } else {
      LinesAround(lines, k);
      EntriesSnoc(read, lines[..k], lines[k]);
      HeaderStep(csv, Entries(read, lines[..k]), read(lines[k]).value);
      IsHeaderIff(read, csv, lines, k);
    }
  }

  // ---------------------------------------------------------------------------
  // The result, up to a cut between lines
  // ---------------------------------------------------------------------------

  /** Some line before `k` has the first name, and no line up to it the second. */
  ghost predicate NamedBefore(name: nat -> Option<string>, k: nat, first: string, second: string) {
    exists i :: IsNamedBefore(name, k, first, second, i)
  }

  predicate IsNamedBefore(name: nat -> Option<string>, k: nat, first: string, second: string, i: nat) {
    i < k && name(i) == Some(first) && forall j :: 0 <= j <= i ==> name(j) != Some(second)
  }

  /** The valid names are those of the lines before `k`, each once, in the order in which they first come. */
  ghost predicate AreNamesBefore(name: nat -> Option<string>, k: nat, valid: seq<string>) {
    && (forall n :: n in valid <==> exists i: nat :: i < k && name(i) == Some(n))
    && (forall a, b :: 0 <= a < b < |valid| ==> valid[a] != valid[b] && NamedBefore(name, k, valid[a], valid[b]))
  }

  lemma NamesBeforeNone(name: nat -> Option<string>)
    ensures AreNamesBefore(name, 0, [])
  {
  }

  /** A line that has no name, or one that was named before. */
  lemma NamesBeforeSkip(name: nat -> Option<string>, k: nat, valid: seq<string>)
    requires AreNamesBefore(name, k, valid) && (name(k).Some? ==> name(k).value in valid)
    ensures AreNamesBefore(name, k + 1, valid)
  {
    forall n ensures n in valid <==> exists i: nat :: i < k + 1 && name(i) == Some(n) {
      if i: nat :| i < k + 1 && name(i) == Some(n) {
        assert i < k || n in valid;
      }
    }
    forall a, b | 0 <= a < b < |valid| ensures NamedBefore(name, k + 1, valid[a], valid[b]) {
      assert NamedBefore(name, k, valid[a], valid[b]);
      var i :| IsNamedBefore(name, k, valid[a], valid[b], i);
      assert IsNamedBefore(name, k + 1, valid[a], valid[b], i);
    }
  }

  lemma NamesBeforeNew(name: nat -> Option<string>, k: nat, valid: seq<string>)
    requires AreNamesBefore(name, k, valid) && name(k).Some? && name(k).value !in valid
    ensures AreNamesBefore(name, k + 1, valid + [name(k).value])
  {
    var more := valid + [name(k).value];
    forall n ensures n in more <==> exists i: nat :: i < k + 1 && name(i) == Some(n) {
      if i: nat :| i < k + 1 && name(i) == Some(n) {
        assert i < k || n == name(k).value;
      }
      if n == name(k).value {
        assert name(k) == Some(n);
      }
    }
    forall a, b | 0 <= a < b < |more| ensures more[a] != more[b] && NamedBefore(name, k + 1, more[a], more[b]) {
      if b < |valid| {
        assert NamedBefore(name, k, valid[a], valid[b]);
        var i :| IsNamedBefore(name, k, valid[a], valid[b], i);
        assert IsNamedBefore(name, k + 1, more[a], more[b], i);
      } else {
        assert valid[a] in valid;
        var i: nat :| i < k && name(i) == Some(valid[a]);
        assert IsNamedBefore(name, k + 1, more[a], more[b], i);
      }
    }
  }

  /** The rejected lines among those before `k`, in order. */
  ghost predicate AreRejectsBefore(reject: nat -> Option<string>, k: nat, invalid: seq<string>) {
    exists at :: AreRejectsAt(reject, k, invalid, at)
  }

  ghost predicate AreRejectsAt(reject: nat -> Option<string>, k: nat, invalid: seq<string>, at: seq<nat>) {
    && |at| == |invalid|
    && (forall a, b :: 0 <= a < b < |at| ==> at[a] < at[b])
    && (forall a :: 0 <= a < |at| ==> at[a] < k && reject(at[a]) == Some(invalid[a]))
    && (forall i: nat :: i < k && reject(i).Some? ==> i in at)
  }

  lemma OneMoreReject(reject: nat -> Option<string>, k: nat, invalid: seq<string>, at: seq<nat>)
    requires AreRejectsAt(reject, k, invalid, at) && reject(k).Some?
    ensures AreRejectsAt(reject, k + 1, invalid + [reject(k).value], at + [k])
  {
    var at' := at + [k];
    forall i: nat | i < k + 1 && reject(i).Some? ensures i in at' {
      if i == k {
        assert at'[|at|] == i;
      } else {
        assert i in at;
      }
    }
  }

  lemma RejectsStep(reject: nat -> Option<string>, k: nat, invalid: seq<string>)
    requires AreRejectsBefore(reject, k, invalid)
    ensures AreRejectsBefore(reject, k + 1, if reject(k).Some? then invalid + [reject(k).value] else invalid)
  {
    var at :| AreRejectsAt(reject, k, invalid, at);
    if reject(k).Some? {
      OneMoreReject(reject, k, invalid, at);
    } else {
      assert AreRejectsAt(reject, k + 1, invalid, at);
    }
  }

  /** What is collected after `k` lines is what these lines say. */
  ghost predicate SaidBy(read: string -> Option<Entry>, name: string -> Option<string>, csv: bool, lines: seq<string>,
                         k: nat, valid: seq<string>, invalid: seq<string>)
  {
    && AreNamesBefore(NameOfLine(read, name, csv, lines), k, valid)
    && AreRejectsBefore(RejectOfLine(read, name, csv, lines), k, invalid)
  }

  lemma NothingSaid(read: string -> Option<Entry>, name: string -> Option<string>, csv: bool, lines: seq<string>)
    ensures SaidBy(read, name, csv, lines, 0, [], [])
  {
    NamesBeforeNone(NameOfLine(read, name, csv, lines));
    assert AreRejectsAt(RejectOfLine(read, name, csv, lines), 0, [], []);
  }

  lemma NamesStep(read: string -> Option<Entry>, name: string -> Option<string>, csv: bool, lines: seq<string>, k: nat,
                  before: seq<Entry>, after: seq<Entry>)
    requires k < |lines| && AreNamesBefore(NameOfLine(read, name, csv, lines), k, Distinct(name, before))
    requires var e := EntryOfLine(read, csv, lines)(k); after == if e.Some? then before + [e.value] else before
    ensures AreNamesBefore(NameOfLine(read, name, csv, lines), k + 1, Distinct(name, after))
  {
    var names := NameOfLine(read, name, csv, lines);
    var e := EntryOfLine(read, csv, lines)(k);
    if e.Some? {
      DistinctSnoc(name, before, e.value);
    }
    if names(k).Some? && names(k).value !in Distinct(name, before) {
      NamesBeforeNew(names, k, Distinct(name, before));
    } else {
      NamesBeforeSkip(names, k, Distinct(name, before));
    }
  }

  lemma SaidStep(read: string -> Option<Entry>, name: string -> Option<string>, csv: bool, lines: seq<string>, k: nat,
                 before: seq<Entry>, after: seq<Entry>)
    requires k < |lines| && SaidBy(read, name, csv, lines, k, Distinct(name, before), Rejects(name, before))
    requires var e := EntryOfLine(read, csv, lines)(k); after == if e.Some? then before + [e.value] else before
    ensures SaidBy(read, name, csv, lines, k + 1, Distinct(name, after), Rejects(name, after))
  {
    var e := EntryOfLine(read, csv, lines)(k);
    NamesStep(read, name, csv, lines, k, before, after);
    RejectsStep(RejectOfLine(read, name, csv, lines), k, Rejects(name, before));
    if e.Some? {
      NamesSnoc(name, before, e.value);
      assert Rejects(name, before) + [] == Rejects(name, before);
    }
  }

  lemma {:induction false} CollectedIs(read: string -> Option<Entry>, name: string -> Option<string>, csv: bool,
                                       lines: seq<string>, k: nat)
    requires k <= |lines|
    ensures var kept := EntriesBefore(read, csv, lines, k);
            SaidBy(read, name, csv, lines, k, Distinct(name, kept), Rejects(name, kept))
  {
    if k == 0 {
      assert lines[..0] == [];
      NothingSaid(read, name, csv, lines);
    } else {
      CollectedIs(read, name, csv, lines, k - 1);
      EntriesStep(read, csv, lines, k - 1);
      SaidStep(read, name, csv, lines, k - 1, EntriesBefore(read, csv, lines, k - 1),
               EntriesBefore(read, csv, lines, k));
    }
  }

  // ---------------------------------------------------------------------------
  // The lines of the file
  // ---------------------------------------------------------------------------

  /** The line is neither blank nor a comment. */
  predicate IsSignificant(line: string) {
    !AllBlank(line) && Strip(line) != [] && Strip(line)[0] != '#'
  }

  /** A separator in one of the first twenty lines, outer blanks and comments aside, makes a file CSV. */
  predicate HasCsvLine(lines: seq<string>) {
    exists i :: 0 <= i < 20 && i < |lines| && IsSignificant(lines[i])
                && exists c :: c in Strip(lines[i]) && (c == ',' || c == ';' || c == '\t')
  }

  /** The line says `token`: all of it, or its first column. */
  predicate Speaks(t: Tools, csv: bool, line: string, token: string) {
    IsSignificant(line) && token != [] && token == if csv then t.firstColumn(Strip(line)) else Strip(line)
  }

  const HEADERS: set<string> := {"domain", "domains", "host", "hostname"}

  /** The first line that says anything, in a CSV file, says one of the four words for a header. */
  ghost predicate IsHeaderLine(t: Tools, csv: bool, lines: seq<string>, i: nat) {
    && csv && i < |lines|
    && (exists h, token :: h in HEADERS && EqualUpToCase(token, h) && Speaks(t, csv, lines[i], token))
    && forall j, token :: 0 <= j < i ==> !Speaks(t, csv, lines[j], token)
  }

  /** Line `i`, not the header, says a token that normalises to the valid name `n`. */
  ghost predicate SaysName(t: Tools, csv: bool, lines: seq<string>, i: nat, n: string) {
    && i < |lines| && !IsHeaderLine(t, csv, lines, i) && t.isValid(n)
    && exists token :: Speaks(t, csv, lines[i], token) && t.normalize(token) == Some(n)
  }

  /** Line `i`, not the header, says a token that does not normalise, or to a name that is not valid. */
  ghost predicate SaysNoName(t: Tools, csv: bool, lines: seq<string>, i: nat) {
    && i < |lines| && !IsHeaderLine(t, csv, lines, i)
    && exists token :: Speaks(t, csv, lines[i], token)
                       && (t.normalize(token).None? || !t.isValid(t.normalize(token).value))
  }

  lemma IsSignificantIff(line: string)
    ensures IsSignificant(line) <==> !IsSkipped(line)
  {
    StripIsEmptyIff(line);
    assert Strip(line) != [] ==> (StartsWith(Strip(line), "#") <==> Strip(line)[..1] == "#");
  }

  lemma HasCsvLineIff(lines: seq<string>)
    ensures HasCsvLine(lines) <==> LooksLikeCsv(lines)
  {
    forall i | 0 <= i < |lines|
      ensures IsCsvLine(lines[i])
              <==> (IsSignificant(lines[i]) && exists c :: c in Strip(lines[i]) && (c == ',' || c == ';' || c == '\t'))
    {
      IsSignificantIff(lines[i]);
    }
  }

  lemma EntryAtIff(t: Tools, csv: bool, line: string, e: Entry)
    ensures EntryAt(t, csv, line) == Some(e) <==> e.raw == Strip(line) && Speaks(t, csv, line, e.token)
  {
    IsSignificantIff(line);
  }

  lemma HeadersAreLower(h: string)
    requires h in HEADERS
    ensures Lower(h) == h
  {
  }

  lemma IsHeaderWord(token: string)
    ensures IsHeader(token) <==> exists h :: h in HEADERS && EqualUpToCase(token, h)
  {
    if IsHeader(token) {
      HeadersAreLower(Lower(token));
      EqualUpToCaseIff(token, Lower(token));
    }
    if h :| h in HEADERS && EqualUpToCase(token, h) {
      HeadersAreLower(h);
      EqualUpToCaseIff(token, h);
    }
  }

  lemma HeaderLineIff(t: Tools, csv: bool, lines: seq<string>, i: nat)
    requires i < |lines|
    ensures IsHeaderAt(line => EntryAt(t, csv, line), csv, lines, i) <==> IsHeaderLine(t, csv, lines, i)
  {
    var read := line => EntryAt(t, csv, line);
    forall j, e | 0 <= j < |lines|
      ensures read(lines[j]) == Some(e) <==> e.raw == Strip(lines[j]) && Speaks(t, csv, lines[j], e.token)
    {
      EntryAtIff(t, csv, lines[j], e);
    }
    forall j | 0 <= j < |lines| ensures read(lines[j]).None? <==> forall token :: !Speaks(t, csv, lines[j], token) {
      if token :| Speaks(t, csv, lines[j], token) {
        assert read(lines[j]) == Some(Entry(Strip(lines[j]), token));
      }
    }
    if read(lines[i]).Some? {
      IsHeaderWord(read(lines[i]).value.token);
    }
  }

  /** The entry of a line that is not the header, said of the line. */
  lemma EntryOfLineIff(t: Tools, csv: bool, lines: seq<string>, i: nat, e: Entry)
    requires i < |lines|
    ensures EntryOfLine(line => EntryAt(t, csv, line), csv, lines)(i) == Some(e)
            <==> !IsHeaderLine(t, csv, lines, i) && e.raw == Strip(lines[i]) && Speaks(t, csv, lines[i], e.token)
  {
    HeaderLineIff(t, csv, lines, i);
    EntryAtIff(t, csv, lines[i], e);
  }

  lemma NameOfLineIff(t: Tools, csv: bool, lines: seq<string>, i: nat, n: string)
    requires i < |lines|
    ensures NameOfLine(line => EntryAt(t, csv, line), token => NameOf(t, token), csv, lines)(i) == Some(n)
            <==> SaysName(t, csv, lines, i, n)
  {
    var e := EntryOfLine(line => EntryAt(t, csv, line), csv, lines)(i);
    if e.Some? {
      EntryOfLineIff(t, csv, lines, i, e.value);
    }
    if SaysName(t, csv, lines, i, n) {
      var token :| Speaks(t, csv, lines[i], token) && t.normalize(token) == Some(n);
      EntryOfLineIff(t, csv, lines, i, Entry(Strip(lines[i]), token));
    }
  }

  lemma RejectOfLineIff(t: Tools, csv: bool, lines: seq<string>, i: nat)
    requires i < |lines|
    ensures var r := RejectOfLine(line => EntryAt(t, csv, line), token => NameOf(t, token), csv, lines)(i);
            r == if SaysNoName(t, csv, lines, i) then Some(Strip(lines[i])) else None
  {
    var e := EntryOfLine(line => EntryAt(t, csv, line), csv, lines)(i);
    if e.Some? {
      EntryOfLineIff(t, csv, lines, i, e.value);
    }
    if SaysNoName(t, csv, lines, i) {
      var token :| Speaks(t, csv, lines[i], token)
                   && (t.normalize(token).None? || !t.isValid(t.normalize(token).value));
      EntryOfLineIff(t, csv, lines, i, Entry(Strip(lines[i]), token));
    }
  }

  // ---------------------------------------------------------------------------
  // The whole function
  // ---------------------------------------------------------------------------

  /** The names the first `k` lines say, each once, in the order in which they first come. */
  ghost predicate AreValid(t: Tools, csv: bool, lines: seq<string>, k: nat, valid: seq<string>) {
    && (forall n :: n in valid <==> exists i: nat :: i < k && SaysName(t, csv, lines, i, n))
    && (forall a, b :: 0 <= a < b < |valid| ==>
          valid[a] != valid[b] && SaidBefore(t, csv, lines, k, valid[a], valid[b]))
  }

  /** Some line before `k` says the first name, and no line up to it the second. */
  ghost predicate SaidBefore(t: Tools, csv: bool, lines: seq<string>, k: nat, first: string, second: string) {
    exists i: nat :: i < k && SaysName(t, csv, lines, i, first)
                     && forall j: nat :: j <= i ==> !SaysName(t, csv, lines, j, second)
  }

  /** Those of the first `k` lines that say no name, without outer blanks, in order. */
  ghost predicate AreInvalid(t: Tools, csv: bool, lines: seq<string>, k: nat, invalid: seq<string>) {
    exists at :: AreInvalidAt(t, csv, lines, k, invalid, at)
  }

  ghost predicate AreInvalidAt(t: Tools, csv: bool, lines: seq<string>, k: nat, invalid: seq<string>, at: seq<nat>) {
    && |at| == |invalid|
    && (forall a, b :: 0 <= a < b < |at| ==> at[a] < at[b])
    && (forall a :: 0 <= a < |at| ==>
          at[a] < k && SaysNoName(t, csv, lines, at[a]) && invalid[a] == Strip(lines[at[a]]))
    && (forall i: nat :: i < k && SaysNoName(t, csv, lines, i) ==> i in at)
  }

  /** The file is read up to line `k`: all of it, or up to a line that says one name too many. */
  ghost predicate IsReadUpTo(t: Tools, lines: seq<string>, max: nat, r: Result, k: nat) {
    var csv := HasCsvLine(lines);
    && k <= |lines| && (r.truncated <==> k < |lines|)
    && AreValid(t, csv, lines, k, r.valid) && |r.valid| <= max
    && AreInvalid(t, csv, lines, k, r.invalid)
    && (k < |lines| ==> |r.valid| == max && exists n :: n !in r.valid && SaysName(t, csv, lines, k, n))
  }

  lemma NamedBeforeIsSaid(t: Tools, csv: bool, lines: seq<string>, k: nat, first: string, second: string)
    requires k <= |lines|
    requires NamedBefore(NameOfLine(line => EntryAt(t, csv, line), token => NameOf(t, token), csv, lines), k, first,
                         second)
    ensures SaidBefore(t, csv, lines, k, first, second)
  {
    var name := NameOfLine(line => EntryAt(t, csv, line), token => NameOf(t, token), csv, lines);
    var i :| IsNamedBefore(name, k, first, second, i);
    NameOfLineIff(t, csv, lines, i, first);
    forall j: nat | j <= i ensures !SaysName(t, csv, lines, j, second) {
      NameOfLineIff(t, csv, lines, j, second);
    }
  }

  lemma MembersAreSaid(t: Tools, csv: bool, lines: seq<string>, k: nat, valid: seq<string>, n: string)
    requires k <= |lines|
    requires AreNamesBefore(NameOfLine(line => EntryAt(t, csv, line), token => NameOf(t, token), csv, lines), k, valid)
    ensures n in valid <==> exists i: nat :: i < k && SaysName(t, csv, lines, i, n)
  {
    var name := NameOfLine(line => EntryAt(t, csv, line), token => NameOf(t, token), csv, lines);
    if n in valid {
      var i: nat :| i < k && name(i) == Some(n);
      NameOfLineIff(t, csv, lines, i, n);
    }
    if i: nat :| i < k && SaysName(t, csv, lines, i, n) {
      NameOfLineIff(t, csv, lines, i, n);
    }
  }

  lemma ValidAreSaid(t: Tools, csv: bool, lines: seq<string>, k: nat, valid: seq<string>)
    requires k <= |lines|
    requires AreNamesBefore(NameOfLine(line => EntryAt(t, csv, line), token => NameOf(t, token), csv, lines), k, valid)
    ensures AreValid(t, csv, lines, k, valid)
  {
    forall n ensures n in valid <==> exists i: nat :: i < k && SaysName(t, csv, lines, i, n) {
      MembersAreSaid(t, csv, lines, k, valid, n);
    }
    forall a, b | 0 <= a < b < |valid| ensures SaidBefore(t, csv, lines, k, valid[a], valid[b]) {
      NamedBeforeIsSaid(t, csv, lines, k, valid[a], valid[b]);
    }
  }

  lemma InvalidAreSaid(t: Tools, csv: bool, lines: seq<string>, k: nat, invalid: seq<string>)
    requires k <= |lines|
    requires AreRejectsBefore(RejectOfLine(line => EntryAt(t, csv, line), token => NameOf(t, token), csv, lines), k,
                              invalid)
    ensures AreInvalid(t, csv, lines, k, invalid)
  {
    var reject := RejectOfLine(line => EntryAt(t, csv, line), token => NameOf(t, token), csv, lines);
    var at :| AreRejectsAt(reject, k, invalid, at);
    forall i: nat | i < k ensures reject(i) == if SaysNoName(t, csv, lines, i) then Some(Strip(lines[i])) else None {
      RejectOfLineIff(t, csv, lines, i);
    }
    assert AreInvalidAt(t, csv, lines, k, invalid, at);
  }

  /** The line that goes beyond the limit says a name of its own. */
  lemma BeyondIsSaid(t: Tools, csv: bool, lines: seq<string>, k: nat, kept: seq<Entry>, max: nat)
    requires k < |lines| && kept == EntriesBefore(line => EntryAt(t, csv, line), csv, lines, k)
    requires GoesBeyond(line => EntryAt(t, csv, line), token => NameOf(t, token), csv, lines, k, kept, max)
    ensures exists n :: n !in Distinct(token => NameOf(t, token), kept) && SaysName(t, csv, lines, k, n)
  {
    var read, name := line => EntryAt(t, csv, line), token => NameOf(t, token);
    var e := read(lines[k]).value;
    EntriesStep(read, csv, lines, k);
    DistinctSnoc(name, kept, e);
    assert |kept + [e]| > |kept|;
    assert EntryOfLine(read, csv, lines)(k) == Some(e);
    NameOfLineIff(t, csv, lines, k, name(e.token).value);
  }

  /**
   `parse_domain_file` on the decoded text; an empty or undecodable file gives the empty result. Any other is read up to
   some line, and what is returned is what the lines before it say.
   */
  method ParseDomainFile(t: Tools, text: Option<string>, max: nat) returns (r: Result)
    ensures text.None? ==> r == Result([], [], false, 0)
    ensures NoDuplicates(r.valid) && |r.valid| <= max
    ensures text.Some? ==>
      && r.totalLines == |SplitLines(text.value)|
      && exists k :: IsReadUpTo(t, SplitLines(text.value), max, r, k)
    ensures text.Some? ==>
      var lines := SplitLines(text.value);
      var csv := LooksLikeCsv(lines);
      var entries := WithoutHeader(csv, Entries(line => EntryAt(t, csv, line), lines));
      r == Expected(token => NameOf(t, token), entries, max, |lines|)
  {
    if text.None? {
      return Result([], [], false, 0);
    }
    var lines := SplitLines(text.value);
    var csv := DetectCsv(lines);
    ghost var k;
    r, k := ReadEntries(line => EntryAt(t, csv, line), token => NameOf(t, token), csv, lines, max);
    NoNameTwice(token => NameOf(t, token), WithoutHeader(csv, Entries(line => EntryAt(t, csv, line), lines)), max,
                |lines|);
    HasCsvLineIff(lines);
    ResultIsSaid(t, csv, lines, max, r, k);
  }

  lemma ResultIsSaid(t: Tools, csv: bool, lines: seq<string>, max: nat, r: Result, k: nat)
    requires csv == HasCsvLine(lines) && k <= |lines| && |r.valid| <= max && (r.truncated <==> k < |lines|)
    requires var kept := EntriesBefore(line => EntryAt(t, csv, line), csv, lines, k);
             var name := token => NameOf(t, token);
             && r.valid == Distinct(name, kept) && r.invalid == Rejects(name, kept)
             && (r.truncated ==> GoesBeyond(line => EntryAt(t, csv, line), name, csv, lines, k, kept, max))
    ensures IsReadUpTo(t, lines, max, r, k)
  {
    CollectedIs(line => EntryAt(t, csv, line), token => NameOf(t, token), csv, lines, k);
    ValidAreSaid(t, csv, lines, k, r.valid);
    InvalidAreSaid(t, csv, lines, k, r.invalid);
    if r.truncated {
      BeyondIsSaid(t, csv, lines, k, EntriesBefore(line => EntryAt(t, csv, line), csv, lines, k), max);
    }
  }
}
