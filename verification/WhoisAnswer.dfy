/**
 What `parse_whois_text` returns (src/whois/parser.py), field by field, said of the lines of the text.
 */
module WhoisAnswer {
  import opened Sequences
  import opened Text
  import opened Lines
  import opened WhoisText
  import opened WhoisParser

  // ---------------------------------------------------------------------------
  // The whole parser
  // ---------------------------------------------------------------------------

  datatype Data = Data(domain: string, registered: bool, expires: Option<int>, created: Option<int>,
                       updated: Option<int>, registrar: Option<string>, status: seq<string>, servers: seq<string>,
                       contacts: seq<Contact>)

  predicate OccursAt(s: string, part: string, i: nat) {
    i + |part| <= |s| && s[i..i + |part|] == part
  }

  predicate Contains(s: string, part: string) {
    exists i :: 0 <= i <= |s| && OccursAt(s, part, i)
  }

  /** `_looks_like_not_found`. */
  predicate SaysNotFound(text: string, patterns: set<string>) {
    exists pattern :: pattern in patterns && Contains(Lower(text), pattern)
  }

  /** Somewhere in the text stands one of the patterns, in any letter case. */
  ghost predicate DeniesDomain(text: string) {
    exists pattern, i: nat :: pattern in NOT_FOUND_PATTERNS && StandsAt(text, pattern, i)
  }

  predicate StandsAt(text: string, pattern: string, i: nat) {
    i + |pattern| <= |text| && EqualUpToCase(text[i..i + |pattern|], pattern)
  }

  lemma LongPatternsAreLower(pattern: string)
    requires |pattern| > 16 && |pattern| != 24 && pattern in NOT_FOUND_PATTERNS
    ensures Lower(pattern) == pattern
  {
    forall i | 0 <= i < |pattern| ensures Lower(pattern)[i] == pattern[i] {
    }
  }

  lemma OtherPatternsAreLower(pattern: string)
    requires |pattern| == 24 && pattern in NOT_FOUND_PATTERNS
    ensures Lower(pattern) == pattern
  {
    forall i | 0 <= i < |pattern| ensures Lower(pattern)[i] == pattern[i] {
    }
  }

  lemma PatternsAreLower(pattern: string)
    requires pattern in NOT_FOUND_PATTERNS
    ensures Lower(pattern) == pattern
  {
    if |pattern| == 24 {
      OtherPatternsAreLower(pattern);
    } else if |pattern| > 16 {
      LongPatternsAreLower(pattern);
    } else {
      forall i | 0 <= i < |pattern| ensures Lower(pattern)[i] == pattern[i] {
      }
    }
  }

  lemma StandsAtIff(text: string, pattern: string, i: nat)
    requires pattern in NOT_FOUND_PATTERNS
    ensures StandsAt(text, pattern, i) <==> OccursAt(Lower(text), pattern, i)
  {
    PatternsAreLower(pattern);
    if i + |pattern| <= |text| {
      assert Lower(text[i..i + |pattern|]) == Lower(text)[i..i + |pattern|];
      EqualUpToCaseIff(text[i..i + |pattern|], pattern);
    }
  }

  lemma SaysNotFoundIff(text: string)
    ensures SaysNotFound(text, NOT_FOUND_PATTERNS) <==> DeniesDomain(text)
  {
    forall pattern, i: nat | pattern in NOT_FOUND_PATTERNS
      ensures StandsAt(text, pattern, i) <==> OccursAt(Lower(text), pattern, i)
    {
      StandsAtIff(text, pattern, i);
    }
    if SaysNotFound(text, NOT_FOUND_PATTERNS) {
      var pattern :| pattern in NOT_FOUND_PATTERNS && Contains(Lower(text), pattern);
      var i :| 0 <= i <= |Lower(text)| && OccursAt(Lower(text), pattern, i);
      assert StandsAt(text, pattern, i);
    }
    if pattern, i: nat :| pattern in NOT_FOUND_PATTERNS && StandsAt(text, pattern, i) {
      assert Contains(Lower(text), pattern);
    }
  }

  function ClassifiedLines(text: string): seq<Line> {
    var lines := SplitLines(text);
    seq(|lines|, i requires 0 <= i < |lines| => Classify(lines[i]))
  }

  /** Everything the answer of the parser is, field by field. */
  ghost function Parsed(rd: Reader, v: Vocabulary, lines: seq<Line>, domain: string): Data {
    Data(domain, true,
         FirstParsed(rd.date, Values(rd, v.expiry, lines)),
         FirstParsed(rd.date, Values(rd, v.created, lines)),
         FirstParsed(rd.date, Values(rd, v.updated, lines)),
         First(Values(rd, v.registrar, lines)),
         Map(rd.cleanStatus, Values(rd, v.status, lines)),
         FirstOccurrences(Servers(rd, v, lines)),
         ContactsOf(rd, Mentions(rd, lines), FirstOccurrences(RolesOf(Mentions(rd, lines)))))
  }

  /** `parse_whois_text` behind the recognition of an absent domain. */
  method ParseLines(rd: Reader, v: Vocabulary, lines: seq<Line>, domain: string) returns (data: Data)
    requires Distinct(v) && KeepsSecrets(rd)
    ensures data == Parsed(rd, v, lines, domain)
  {
    var s := ReadLines(rd, v, lines);
    var contacts := FinalizeContacts(rd, s.book, Mentions(rd, lines));
    data := Data(domain, true, s.expires, s.created, s.updated, s.registrar, s.status, s.servers, contacts);
  }

  /** `parse_whois_text` with its vocabularies as parameters. */
  method ParseText(text: string, domain: string, rd: Reader, v: Vocabulary, patterns: set<string>) returns (data: Data)
    requires Distinct(v) && KeepsSecrets(rd)
    ensures SaysNotFound(text, patterns) ==> data == Data(domain, false, None, None, None, None, [], [], [])
    ensures !SaysNotFound(text, patterns) ==> data == Parsed(rd, v, ClassifiedLines(text), domain)
  {
    if SaysNotFound(text, patterns) {
      return Data(domain, false, None, None, None, None, [], [], []);
    }
    data := ParseLines(rd, v, ClassifiedLines(text), domain);
  }

  // ---------------------------------------------------------------------------
  // What a caller can rely on
  // ---------------------------------------------------------------------------

  /** Line `i` is the first one whose value under `keys` parses, and it says `t`. */
  ghost predicate IsFirstDate(rd: Reader, keys: set<string>, lines: seq<Line>, i: nat, t: int) {
    && i < |lines| && Reads(rd, keys, lines[i]) && rd.date(lines[i].raw) == Some(t)
    && forall j :: 0 <= j < i && Reads(rd, keys, lines[j]) ==> rd.date(lines[j].raw).None?
  }

  ghost predicate HasFirstDate(rd: Reader, keys: set<string>, lines: seq<Line>, t: int) {
    exists i :: IsFirstDate(rd, keys, lines, i, t)
  }

  ghost predicate NothingParses(rd: Reader, keys: set<string>, lines: seq<Line>) {
    forall i :: 0 <= i < |lines| && Reads(rd, keys, lines[i]) ==> rd.date(lines[i].raw).None?
  }

  lemma FirstDateSnoc(rd: Reader, keys: set<string>, front: seq<Line>, l: Line, t: int)
    ensures HasFirstDate(rd, keys, front + [l], t)
       <==> (HasFirstDate(rd, keys, front, t)
             || (NothingParses(rd, keys, front) && Reads(rd, keys, l) && rd.date(l.raw) == Some(t)))
  {
    var lines := front + [l];
    assert forall j :: 0 <= j < |front| ==> lines[j] == front[j];
    if HasFirstDate(rd, keys, lines, t) {
      var i :| IsFirstDate(rd, keys, lines, i, t);
      assert i == |front| || IsFirstDate(rd, keys, front, i, t);
    }
    if HasFirstDate(rd, keys, front, t) {
      var i :| IsFirstDate(rd, keys, front, i, t);
      assert IsFirstDate(rd, keys, lines, i, t);
    } else if NothingParses(rd, keys, front) && Reads(rd, keys, l) && rd.date(l.raw) == Some(t) {
      assert IsFirstDate(rd, keys, lines, |front|, t);
    }
  }

  lemma DateSnoc(rd: Reader, keys: set<string>, front: seq<Line>, l: Line, t: int)
    requires FirstParsed(rd.date, Values(rd, keys, front)) == Some(t) <==> HasFirstDate(rd, keys, front, t)
    requires FirstParsed(rd.date, Values(rd, keys, front)).None? <==> NothingParses(rd, keys, front)
    ensures FirstParsed(rd.date, Values(rd, keys, front + [l])) == Some(t) <==> HasFirstDate(rd, keys, front + [l], t)
  {
    DateStep(rd, keys, front, l);
    FirstDateSnoc(rd, keys, front, l, t);
    if HasFirstDate(rd, keys, front, t) {
      var i :| IsFirstDate(rd, keys, front, i, t);
    }
  }

  /** Unparseable values are skipped: the field holds the date of the first line that has one. */
  lemma DateIs(rd: Reader, keys: set<string>, lines: seq<Line>, t: int)
    ensures FirstParsed(rd.date, Values(rd, keys, lines)) == Some(t) <==> HasFirstDate(rd, keys, lines, t)
  {
    var p := (ls: seq<Line>) =>
      (FirstParsed(rd.date, Values(rd, keys, ls)) == Some(t) <==> HasFirstDate(rd, keys, ls, t));
    forall front, l | p(front) ensures p(front + [l]) {
      DateMissing(rd, keys, front);
      DateSnoc(rd, keys, front, l, t);
    }
    SnocInduction(p, lines);
  }

  lemma NothingParsesSnoc(rd: Reader, keys: set<string>, front: seq<Line>, l: Line)
    ensures NothingParses(rd, keys, front + [l])
       <==> NothingParses(rd, keys, front) && (Reads(rd, keys, l) ==> rd.date(l.raw).None?)
  {
    var lines := front + [l];
    assert lines[|front|] == l && forall j :: 0 <= j < |front| ==> lines[j] == front[j];
  }

  lemma MissingStep(rd: Reader, keys: set<string>, front: seq<Line>, l: Line)
    requires FirstParsed(rd.date, Values(rd, keys, front)).None? <==> NothingParses(rd, keys, front)
    ensures FirstParsed(rd.date, Values(rd, keys, front + [l])).None? <==> NothingParses(rd, keys, front + [l])
  {
    DateStep(rd, keys, front, l);
    NothingParsesSnoc(rd, keys, front, l);
  }

  /** A date is missing exactly when no line gives one that parses. */
  lemma DateMissing(rd: Reader, keys: set<string>, lines: seq<Line>)
    ensures FirstParsed(rd.date, Values(rd, keys, lines)).None? <==> NothingParses(rd, keys, lines)
  {
    var p := (ls: seq<Line>) => (FirstParsed(rd.date, Values(rd, keys, ls)).None? <==> NothingParses(rd, keys, ls));
    forall front, l | p(front) ensures p(front + [l]) {
      MissingStep(rd, keys, front, l);
    }
    SnocInduction(p, lines);
  }

  /** Line `i` contributes the host name. */
  ghost predicate Contributes(rd: Reader, v: Vocabulary, lines: seq<Line>, i: nat, name: string) {
    i < |lines| && ServerAt(rd, v, lines[..i], lines[i]) == Some(name)
  }

  ghost predicate IsContributed(rd: Reader, v: Vocabulary, lines: seq<Line>, name: string) {
    exists i :: Contributes(rd, v, lines, i, name)
  }

  /** A host name is listed exactly when some line contributes it, and no name is listed twice. */
  lemma ServersAre(rd: Reader, v: Vocabulary, lines: seq<Line>, name: string)
    ensures NoDuplicates(FirstOccurrences(Servers(rd, v, lines)))
    ensures name in FirstOccurrences(Servers(rd, v, lines)) <==> name != [] && IsContributed(rd, v, lines, name)
  {
    FirstOccurrencesElements(Servers(rd, v, lines));
    ServersMember(rd, v, lines, name);
  }

  lemma ContributedSnoc(rd: Reader, v: Vocabulary, front: seq<Line>, l: Line, name: string)
    ensures IsContributed(rd, v, front + [l], name)
       <==> IsContributed(rd, v, front, name) || ServerAt(rd, v, front, l) == Some(name)
  {
    var lines := front + [l];
    assert lines[..|front|] == front && lines[|front|] == l;
    forall i | 0 <= i < |front| ensures Contributes(rd, v, lines, i, name) == Contributes(rd, v, front, i, name) {
      assert lines[..i] == front[..i] && lines[i] == front[i];
    }
    if IsContributed(rd, v, lines, name) {
      var i :| Contributes(rd, v, lines, i, name);
      assert i == |front| || Contributes(rd, v, front, i, name);
    }
    if IsContributed(rd, v, front, name) {
      var i :| Contributes(rd, v, front, i, name);
      assert Contributes(rd, v, lines, i, name);
    } else if ServerAt(rd, v, front, l) == Some(name) {
      assert Contributes(rd, v, lines, |front|, name);
    }
  }

  lemma {:induction false} ServersMember(rd: Reader, v: Vocabulary, lines: seq<Line>, name: string)
    ensures name in Servers(rd, v, lines) <==> name != [] && IsContributed(rd, v, lines, name)
  {
    if lines != [] {
      var front, l := lines[..|lines| - 1], lines[|lines| - 1];
      ServersMember(rd, v, front, name);
      ContributedSnoc(rd, v, front, l, name);
      assert lines == front + [l];
    }
  }

  /** The last value that may be shown wins. */
  lemma {:induction false} FieldIs(rd: Reader, ms: seq<Mention>, slot: Slot, i: nat)
    requires i < |ms| && ms[i].slot == slot && IsShown(rd, ms[i].raw)
    requires forall j :: i < j < |ms| && ms[j].slot == slot ==> !IsShown(rd, ms[j].raw)
    ensures FieldOf(rd, ms, slot) == Some(rd.store(slot.field, ms[i].raw))
  {
    if i < |ms| - 1 {
      FieldIs(rd, ms[..|ms| - 1], slot, i);
    }
  }

  /** A privacy placeholder is never shown, and it is the only thing that marks a contact as redacted. */
  lemma ContactsTellNoSecrets(rd: Reader, ms: seq<Mention>, roles: seq<Role>, c: Contact, f: Field)
    requires KeepsSecrets(rd) && c in ContactsOf(rd, ms, roles)
    ensures c.Get(f).Some? ==> c.Get(f).value != [] && !rd.hidden(c.Get(f).value)
    ensures c.Get(f).Some? ==> exists m :: m in ms && m.slot == Slot(c.role, f) && IsShown(rd, m.raw)
    ensures c.redacted <==> exists m :: m in ms && m.slot.role == c.role && IsHidden(rd, m.raw)
    ensures !c.IsEmpty()
  {
    ContactsMember(rd, ms, roles, c);
    assert c.Get(f) == FieldOf(rd, ms, Slot(c.role, f));
    if c.Get(f).Some? {
      FieldsKeepSecrets(rd, ms, Slot(c.role, f));
      FieldHasSource(rd, ms, Slot(c.role, f));
    }
  }

  lemma {:induction false} FieldHasSource(rd: Reader, ms: seq<Mention>, slot: Slot)
    requires FieldOf(rd, ms, slot).Some?
    ensures exists m :: m in ms && m.slot == slot && IsShown(rd, m.raw)
  {
    var m := ms[|ms| - 1];
    if m.slot == slot && IsShown(rd, m.raw) {
      assert m in ms;
    } else {
      FieldHasSource(rd, ms[..|ms| - 1], slot);
    }
  }

  lemma {:induction false} ContactsMember(rd: Reader, ms: seq<Mention>, roles: seq<Role>, c: Contact)
    ensures c in ContactsOf(rd, ms, roles) <==> c.role in roles && c == ContactOf(rd, ms, c.role) && !c.IsEmpty()
  {
    if roles != [] {
      assert roles == roles[..|roles| - 1] + [roles[|roles| - 1]];
      ContactsMember(rd, ms, roles[..|roles| - 1], c);
    }
  }

  /** No role has two contacts. */
  lemma {:induction false} RolesAreDistinct(rd: Reader, ms: seq<Mention>, roles: seq<Role>, i: nat, j: nat)
    requires NoDuplicates(roles) && i < j < |ContactsOf(rd, ms, roles)|
    ensures ContactsOf(rd, ms, roles)[i].role != ContactsOf(rd, ms, roles)[j].role
  {
    var front, role := roles[..|roles| - 1], roles[|roles| - 1];
    var contacts := ContactsOf(rd, ms, front);
    if j < |contacts| {
      RolesAreDistinct(rd, ms, front, i, j);
    } else {
      assert contacts[i] in contacts;
      ContactsMember(rd, ms, front, contacts[i]);
    }
  }

  /** Line `i` is the first one with a value under `keys`, and it says `x`. */
  predicate IsFirstValue(rd: Reader, keys: set<string>, lines: seq<Line>, i: nat, x: string) {
    && i < |lines| && Reads(rd, keys, lines[i]) && lines[i].raw == x
    && forall j :: 0 <= j < i ==> !Reads(rd, keys, lines[j])
  }

  ghost predicate HasFirstValue(rd: Reader, keys: set<string>, lines: seq<Line>, x: string) {
    exists i :: IsFirstValue(rd, keys, lines, i, x)
  }

  /** `at` are the lines with a value under `keys`, in order. */
  predicate AreReaders(rd: Reader, keys: set<string>, lines: seq<Line>, at: seq<nat>) {
    && (forall k :: 0 <= k < |at| ==> at[k] < |lines| && Reads(rd, keys, lines[at[k]]))
    && (forall k, m :: 0 <= k < m < |at| ==> at[k] < at[m])
    && (forall i :: 0 <= i < |lines| && Reads(rd, keys, lines[i]) ==> i in at)
  }

  /** The values are those of the lines at these positions. */
  predicate AreValuesAt(rd: Reader, keys: set<string>, lines: seq<Line>, values: seq<string>, at: seq<nat>) {
    && AreReaders(rd, keys, lines, at) && |values| == |at|
    && forall k :: 0 <= k < |at| ==> values[k] == lines[at[k]].raw
  }

  lemma OneMoreReader(rd: Reader, keys: set<string>, front: seq<Line>, l: Line, values: seq<string>, at: seq<nat>)
    requires AreValuesAt(rd, keys, front, values, at) && Reads(rd, keys, l)
    ensures AreValuesAt(rd, keys, front + [l], values + [l.raw], at + [|front|])
  {
    var lines, at' := front + [l], at + [|front|];
    assert lines[|front|] == l && forall i :: 0 <= i < |front| ==> lines[i] == front[i];
    forall i | 0 <= i < |lines| && Reads(rd, keys, lines[i]) ensures i in at' {
      if i == |front| {
        assert at'[|at|] == i;
      } else {
        assert i in at;
      }
    }
  }

  lemma NoMoreReader(rd: Reader, keys: set<string>, front: seq<Line>, l: Line, values: seq<string>, at: seq<nat>)
    requires AreValuesAt(rd, keys, front, values, at) && !Reads(rd, keys, l)
    ensures AreValuesAt(rd, keys, front + [l], values, at)
  {
    var lines := front + [l];
    assert lines[|front|] == l && forall i :: 0 <= i < |front| ==> lines[i] == front[i];
  }

  lemma ValuesNext(rd: Reader, keys: set<string>, front: seq<Line>, l: Line)
    ensures Reads(rd, keys, l) ==> Values(rd, keys, front + [l]) == Values(rd, keys, front) + [l.raw]
    ensures !Reads(rd, keys, l) ==> Values(rd, keys, front + [l]) == Values(rd, keys, front)
  {
    assert (front + [l])[..|front|] == front;
    assert Values(rd, keys, front) + [] == Values(rd, keys, front);
  }

  lemma {:induction false} ReadersOf(rd: Reader, keys: set<string>, lines: seq<Line>) returns (at: seq<nat>)
    ensures AreValuesAt(rd, keys, lines, Values(rd, keys, lines), at)
  {
    if lines == [] {
      at := [];
    } else {
      var front, l := lines[..|lines| - 1], lines[|lines| - 1];
      at := ReadersOf(rd, keys, front);
      ValuesNext(rd, keys, front, l);
      assert lines == front + [l];
      if Reads(rd, keys, l) {
        OneMoreReader(rd, keys, front, l, Values(rd, keys, front), at);
        at := at + [|front|];
      } else {
        NoMoreReader(rd, keys, front, l, Values(rd, keys, front), at);
      }
    }
  }

  lemma FirstValueIs(rd: Reader, keys: set<string>, lines: seq<Line>, x: string)
    ensures First(Values(rd, keys, lines)) == Some(x) <==> HasFirstValue(rd, keys, lines, x)
  {
    var at := ReadersOf(rd, keys, lines);
    if i :| IsFirstValue(rd, keys, lines, i, x) {
      assert i in at;
      var k :| 0 <= k < |at| && at[k] == i;
    }
    if at != [] && lines[at[0]].raw == x {
      assert IsFirstValue(rd, keys, lines, at[0], x);
    }
  }

  lemma {:induction false} MapIs(f: string -> string, values: seq<string>)
    ensures |Map(f, values)| == |values|
    ensures forall k :: 0 <= k < |values| ==> Map(f, values)[k] == f(values[k])
  {
    if values != [] {
      MapIs(f, values[..|values| - 1]);
    }
  }

  /** One cleaned value for every line under `keys`, in order. */
  ghost predicate Gathers(rd: Reader, keys: set<string>, lines: seq<Line>, clean: string -> string,
                          status: seq<string>) {
    exists at :: IsGathered(rd, keys, lines, clean, status, at)
  }

  predicate IsGathered(rd: Reader, keys: set<string>, lines: seq<Line>, clean: string -> string, status: seq<string>,
                       at: seq<nat>)
  {
    && AreReaders(rd, keys, lines, at) && |status| == |at|
    && forall k :: 0 <= k < |at| ==> status[k] == clean(lines[at[k]].raw)
  }

  lemma StatusIs(rd: Reader, keys: set<string>, lines: seq<Line>)
    ensures Gathers(rd, keys, lines, rd.cleanStatus, Map(rd.cleanStatus, Values(rd, keys, lines)))
  {
    var at := ReadersOf(rd, keys, lines);
    MapIs(rd.cleanStatus, Values(rd, keys, lines));
    assert IsGathered(rd, keys, lines, rd.cleanStatus, Map(rd.cleanStatus, Values(rd, keys, lines)), at);
  }

  // ---------------------------------------------------------------------------
  // Contacts, said of the lines
  // ---------------------------------------------------------------------------

  /** The line gives a contact field a value that is not a URL. */
  predicate Tells(rd: Reader, role: Role, l: Line) {
    l.Pair? && rd.contact(l.key).Some? && rd.contact(l.key).value.role == role && !rd.url(l.raw)
  }

  predicate Shows(rd: Reader, slot: Slot, l: Line) {
    Tells(rd, slot.role, l) && rd.contact(l.key) == Some(slot) && IsShown(rd, l.raw)
  }

  predicate Hides(rd: Reader, role: Role, l: Line) {
    Tells(rd, role, l) && IsHidden(rd, l.raw)
  }

  /** Line `i` is the last one that shows something for the field, and `x` is what is kept of it. */
  predicate IsLastShown(rd: Reader, lines: seq<Line>, slot: Slot, i: nat, x: string) {
    && i < |lines| && Shows(rd, slot, lines[i]) && x == rd.store(slot.field, lines[i].raw)
    && forall j :: i < j < |lines| ==> !Shows(rd, slot, lines[j])
  }

  ghost predicate HasLastShown(rd: Reader, lines: seq<Line>, slot: Slot, x: string) {
    exists i :: IsLastShown(rd, lines, slot, i, x)
  }

  predicate SomeLineHides(rd: Reader, lines: seq<Line>, role: Role) {
    exists i :: 0 <= i < |lines| && Hides(rd, role, lines[i])
  }

  predicate SomeLineShows(rd: Reader, lines: seq<Line>, role: Role) {
    exists i :: 0 <= i < |lines| && Tells(rd, role, lines[i]) && IsShown(rd, lines[i].raw)
  }

  lemma LastShownStays(rd: Reader, front: seq<Line>, l: Line, slot: Slot, i: int, x: string)
    requires 0 <= i < |front| && !Shows(rd, slot, l)
    ensures IsLastShown(rd, front + [l], slot, i, x) <==> IsLastShown(rd, front, slot, i, x)
  {
    var lines := front + [l];
    assert lines[|front|] == l && forall j :: 0 <= j < |front| ==> lines[j] == front[j];
  }

  lemma LastShownSnoc(rd: Reader, front: seq<Line>, l: Line, slot: Slot, x: string)
    ensures HasLastShown(rd, front + [l], slot, x)
       <==> if Shows(rd, slot, l) then x == rd.store(slot.field, l.raw) else HasLastShown(rd, front, slot, x)
  {
    var lines := front + [l];
    assert lines[|front|] == l;
    if Shows(rd, slot, l) {
      assert IsLastShown(rd, lines, slot, |front|, rd.store(slot.field, l.raw));
    } else {
      forall i | 0 <= i < |front| ensures IsLastShown(rd, lines, slot, i, x) <==> IsLastShown(rd, front, slot, i, x) {
        LastShownStays(rd, front, l, slot, i, x);
      }
    }
  }

  lemma FieldOfMentionsSnoc(rd: Reader, front: seq<Line>, l: Line, slot: Slot)
    ensures FieldOf(rd, Mentions(rd, front + [l]), slot)
         == if Shows(rd, slot, l) then Some(rd.store(slot.field, l.raw)) else FieldOf(rd, Mentions(rd, front), slot)
  {
    MentionsSnoc(rd, front, l);
    if MentionAt(rd, l) == [] {
      NoMention(Mentions(rd, front));
    } else {
      FieldOfSnoc(rd, Mentions(rd, front), MentionAt(rd, l)[0], slot);
    }
  }

  lemma LastShownStep(rd: Reader, front: seq<Line>, l: Line, slot: Slot, x: string)
    requires FieldOf(rd, Mentions(rd, front), slot) == Some(x) <==> HasLastShown(rd, front, slot, x)
    ensures FieldOf(rd, Mentions(rd, front + [l]), slot) == Some(x) <==> HasLastShown(rd, front + [l], slot, x)
  {
    LastShownSnoc(rd, front, l, slot, x);
    FieldOfMentionsSnoc(rd, front, l, slot);
  }

  lemma FieldIsLastShown(rd: Reader, lines: seq<Line>, slot: Slot, x: string)
    ensures FieldOf(rd, Mentions(rd, lines), slot) == Some(x) <==> HasLastShown(rd, lines, slot, x)
  {
    var p := (ls: seq<Line>) => (FieldOf(rd, Mentions(rd, ls), slot) == Some(x) <==> HasLastShown(rd, ls, slot, x));
    forall front, l | p(front) ensures p(front + [l]) {
      LastShownStep(rd, front, l, slot, x);
    }
    SnocInduction(p, lines);
  }

  lemma {:induction false} HidesIff(rd: Reader, lines: seq<Line>, role: Role)
    ensures HidesSomething(rd, Mentions(rd, lines), role) <==> SomeLineHides(rd, lines, role)
  {
    if lines != [] {
      var front, l := lines[..|lines| - 1], lines[|lines| - 1];
      assert lines == front + [l];
      HidesIff(rd, front, role);
      HidesLineSnoc(rd, front, l, role);
      if MentionAt(rd, l) == [] {
        NoMention(Mentions(rd, front));
      } else {
        HidesSnoc(rd, Mentions(rd, front), MentionAt(rd, l)[0], role);
      }
    }
  }

  lemma HidesLineSnoc(rd: Reader, front: seq<Line>, l: Line, role: Role)
    ensures SomeLineHides(rd, front + [l], role) <==> SomeLineHides(rd, front, role) || Hides(rd, role, l)
  {
    var lines := front + [l];
    assert lines[|front|] == l && forall j :: 0 <= j < |front| ==> lines[j] == front[j];
    if i :| 0 <= i < |front| && Hides(rd, role, front[i]) {
      assert Hides(rd, role, lines[i]);
    }
  }

  /** The contact says what the lines of its role say, and says something. */
  ghost predicate IsContactOf(rd: Reader, lines: seq<Line>, c: Contact) {
    && (forall f, x :: c.Get(f) == Some(x) <==> HasLastShown(rd, lines, Slot(c.role, f), x))
    && (c.redacted <==> SomeLineHides(rd, lines, c.role))
    && (SomeLineShows(rd, lines, c.role) || SomeLineHides(rd, lines, c.role))
  }

  lemma GetIs(rd: Reader, ms: seq<Mention>, role: Role, f: Field)
    ensures ContactOf(rd, ms, role).Get(f) == FieldOf(rd, ms, Slot(role, f))
  {
  }

  lemma ContactFieldIs(rd: Reader, lines: seq<Line>, role: Role, f: Field, x: string)
    ensures ContactOf(rd, Mentions(rd, lines), role).Get(f) == Some(x) <==> HasLastShown(rd, lines, Slot(role, f), x)
  {
    GetIs(rd, Mentions(rd, lines), role, f);
    FieldIsLastShown(rd, lines, Slot(role, f), x);
  }

  predicate SomeLineShowsField(rd: Reader, lines: seq<Line>, slot: Slot) {
    exists i :: 0 <= i < |lines| && Shows(rd, slot, lines[i])
  }

  lemma {:induction false} LastOneShows(rd: Reader, lines: seq<Line>, slot: Slot, i: nat) returns (k: nat)
    requires i < |lines| && Shows(rd, slot, lines[i])
    ensures k < |lines| && Shows(rd, slot, lines[k])
    ensures IsLastShown(rd, lines, slot, k, rd.store(slot.field, lines[k].raw))
    decreases |lines| - i
  {
    if j :| i < j < |lines| && Shows(rd, slot, lines[j]) {
      k := LastOneShows(rd, lines, slot, j);
    } else {
      k := i;
    }
  }

  /** A field is missing exactly when no line shows anything for it. */
  lemma FieldMissingIff(rd: Reader, lines: seq<Line>, slot: Slot)
    ensures FieldOf(rd, Mentions(rd, lines), slot).None? <==> !SomeLineShowsField(rd, lines, slot)
  {
    var field := FieldOf(rd, Mentions(rd, lines), slot);
    if field.Some? {
      FieldIsLastShown(rd, lines, slot, field.value);
    }
    if i :| 0 <= i < |lines| && Shows(rd, slot, lines[i]) {
      var k := LastOneShows(rd, lines, slot, i);
      FieldIsLastShown(rd, lines, slot, rd.store(slot.field, lines[k].raw));
    }
  }

  lemma SomethingShownIff(rd: Reader, lines: seq<Line>, role: Role)
    ensures SomeLineShows(rd, lines, role) <==> exists f :: SomeLineShowsField(rd, lines, Slot(role, f))
  {
    if i :| 0 <= i < |lines| && Tells(rd, role, lines[i]) && IsShown(rd, lines[i].raw) {
      var slot := rd.contact(lines[i].key).value;
      assert Shows(rd, slot, lines[i]) && slot == Slot(role, slot.field);
      assert SomeLineShowsField(rd, lines, Slot(role, slot.field));
    }
    if f :| SomeLineShowsField(rd, lines, Slot(role, f)) {
      var i :| 0 <= i < |lines| && Shows(rd, Slot(role, f), lines[i]);
      assert Tells(rd, role, lines[i]) && IsShown(rd, lines[i].raw);
    }
  }

  lemma EmptyContactIff(c: Contact)
    ensures c.IsEmpty() <==> (forall f :: c.Get(f).None?) && !c.redacted
  {
    if forall f :: c.Get(f).None? {
      assert c.Get(Name).None? && c.Get(Organization).None? && c.Get(Email).None? && c.Get(Phone).None?;
      assert c.Get(Country).None?;
    }
  }

  /** A role's contact is empty exactly when no line shows or hides anything for it. */
  lemma EmptyIff(rd: Reader, lines: seq<Line>, role: Role)
    ensures ContactOf(rd, Mentions(rd, lines), role).IsEmpty()
       <==> !SomeLineShows(rd, lines, role) && !SomeLineHides(rd, lines, role)
  {
    var ms := Mentions(rd, lines);
    EmptyContactIff(ContactOf(rd, ms, role));
    HidesIff(rd, lines, role);
    SomethingShownIff(rd, lines, role);
    forall f ensures ContactOf(rd, ms, role).Get(f).None? <==> !SomeLineShowsField(rd, lines, Slot(role, f)) {
      GetIs(rd, ms, role, f);
      FieldMissingIff(rd, lines, Slot(role, f));
    }
  }

  lemma RoleSnoc(rd: Reader, front: seq<Line>, l: Line)
    ensures RolesOf(Mentions(rd, front + [l])) == RolesOf(Mentions(rd, front))
              + if MentionAt(rd, l) == [] then [] else [MentionAt(rd, l)[0].slot.role]
  {
    MentionsSnoc(rd, front, l);
    if MentionAt(rd, l) == [] {
      NoMention(Mentions(rd, front));
      assert RolesOf(Mentions(rd, front)) + [] == RolesOf(Mentions(rd, front));
    } else {
      RolesOfSnoc(Mentions(rd, front), MentionAt(rd, l)[0]);
    }
  }

  predicate SomeLineTells(rd: Reader, lines: seq<Line>, role: Role) {
    exists i :: 0 <= i < |lines| && Tells(rd, role, lines[i])
  }

  lemma TellsSnoc(rd: Reader, front: seq<Line>, l: Line, role: Role)
    ensures SomeLineTells(rd, front + [l], role) <==> SomeLineTells(rd, front, role) || Tells(rd, role, l)
  {
    var lines := front + [l];
    assert lines[|front|] == l && forall j :: 0 <= j < |front| ==> lines[j] == front[j];
    if i :| 0 <= i < |front| && Tells(rd, role, front[i]) {
      assert Tells(rd, role, lines[i]);
    }
  }

  /** A role is mentioned exactly when some line tells something of it. */
  lemma {:induction false} MentionedIff(rd: Reader, lines: seq<Line>, role: Role)
    ensures role in RolesOf(Mentions(rd, lines)) <==> SomeLineTells(rd, lines, role)
  {
    if lines != [] {
      var front, l := lines[..|lines| - 1], lines[|lines| - 1];
      assert lines == front + [l];
      MentionedIff(rd, front, role);
      RoleSnoc(rd, front, l);
      TellsSnoc(rd, front, l, role);
      assert Tells(rd, role, l) <==> MentionAt(rd, l) != [] && MentionAt(rd, l)[0].slot.role == role;
    }
  }

  /** Some line tells of the first role, and no line up to it of the second. */
  ghost predicate ToldBefore(rd: Reader, lines: seq<Line>, first: Role, second: Role) {
    exists i :: IsToldBefore(rd, lines, first, second, i)
  }

  predicate IsToldBefore(rd: Reader, lines: seq<Line>, first: Role, second: Role, i: nat) {
    i < |lines| && Tells(rd, first, lines[i]) && forall j :: 0 <= j <= i ==> !Tells(rd, second, lines[j])
  }

  lemma ToldBeforeSnoc(rd: Reader, front: seq<Line>, l: Line, first: Role, second: Role)
    requires ToldBefore(rd, front, first, second)
    ensures ToldBefore(rd, front + [l], first, second)
  {
    var i :| IsToldBefore(rd, front, first, second, i);
    assert IsToldBefore(rd, front + [l], first, second, i);
  }

  /** The roles that have a contact, as the parser collects them. */
  function Roles(rd: Reader, lines: seq<Line>): seq<Role> {
    FirstOccurrences(RolesOf(Mentions(rd, lines)))
  }

  /** A line adds one role at most, at the end. */
  lemma FirstRolesSnoc(rd: Reader, front: seq<Line>, l: Line)
    ensures var before, after := Roles(rd, front), Roles(rd, front + [l]);
            && |before| <= |after| <= |before| + 1 && after[..|before|] == before
            && (|before| < |after| ==> after[|before|] !in RolesOf(Mentions(rd, front)))
  {
    RoleSnoc(rd, front, l);
    if MentionAt(rd, l) == [] {
      assert RolesOf(Mentions(rd, front)) + [] == RolesOf(Mentions(rd, front));
    } else {
      FirstOccurrencesGrow(RolesOf(Mentions(rd, front)), MentionAt(rd, l)[0].slot.role);
    }
  }

  lemma OrderStep(rd: Reader, front: seq<Line>, l: Line, before: seq<Role>, after: seq<Role>, i: nat, j: nat)
    requires i < j < |after| && |before| <= |after| <= |before| + 1 && after[..|before|] == before
    requires |before| < |after| ==> after[|before|] !in RolesOf(Mentions(rd, front))
    requires i < |before| ==> before[i] in RolesOf(Mentions(rd, front))
    requires j < |before| ==> ToldBefore(rd, front, before[i], before[j])
    ensures ToldBefore(rd, front + [l], after[i], after[j])
  {
    assert forall k :: 0 <= k < |before| ==> after[k] == after[..|before|][k] == before[k];
    if j < |before| {
      ToldBeforeSnoc(rd, front, l, before[i], before[j]);
    } else {
      LastRoleIsNew(rd, front, l, before[i], after[j]);
    }
  }

  lemma RoleIsMentioned(rd: Reader, lines: seq<Line>, i: nat)
    requires i < |Roles(rd, lines)|
    ensures Roles(rd, lines)[i] in RolesOf(Mentions(rd, lines))
  {
    assert Roles(rd, lines)[i] in Roles(rd, lines);
    FirstOccurrencesMember(RolesOf(Mentions(rd, lines)), Roles(rd, lines)[i]);
  }

  /** The roles come in the order in which they are first told of. */
  lemma {:induction false} RolesInOrder(rd: Reader, lines: seq<Line>, i: nat, j: nat)
    requires i < j < |Roles(rd, lines)|
    ensures ToldBefore(rd, lines, Roles(rd, lines)[i], Roles(rd, lines)[j])
  {
    var front, l := lines[..|lines| - 1], lines[|lines| - 1];
    assert lines == front + [l];
    FirstRolesSnoc(rd, front, l);
    if i < |Roles(rd, front)| {
      RoleIsMentioned(rd, front, i);
    }
    if j < |Roles(rd, front)| {
      RolesInOrder(rd, front, i, j);
    }
    OrderStep(rd, front, l, Roles(rd, front), Roles(rd, lines), i, j);
  }

  lemma LastRoleIsNew(rd: Reader, front: seq<Line>, l: Line, first: Role, second: Role)
    requires first in RolesOf(Mentions(rd, front)) && second !in RolesOf(Mentions(rd, front))
    ensures ToldBefore(rd, front + [l], first, second)
  {
    MentionedIff(rd, front, first);
    MentionedIff(rd, front, second);
    var i :| 0 <= i < |front| && Tells(rd, first, front[i]);
    assert IsToldBefore(rd, front, first, second, i);
    ToldBeforeSnoc(rd, front, l, first, second);
  }

  /** The contacts of non-empty roles come in the order of the roles. */
  lemma {:induction false} ContactsInOrder(rd: Reader, ms: seq<Mention>, roles: seq<Role>, i: nat, j: nat)
      returns (k: nat, m: nat)
    requires i < j < |ContactsOf(rd, ms, roles)|
    ensures k < m < |roles|
    ensures ContactsOf(rd, ms, roles)[i].role == roles[k] && ContactsOf(rd, ms, roles)[j].role == roles[m]
  {
    var front := roles[..|roles| - 1];
    var contacts := ContactsOf(rd, ms, front);
    if j < |contacts| {
      k, m := ContactsInOrder(rd, ms, front, i, j);
    } else {
      assert contacts[i] in contacts;
      ContactsMember(rd, ms, front, contacts[i]);
      k :| 0 <= k < |front| && front[k] == contacts[i].role;
      m := |front|;
    }
  }

  /** The list has one contact for every role some line shows or hides something of, in the order they are told of. */
  ghost predicate AreContactsOf(rd: Reader, lines: seq<Line>, contacts: seq<Contact>) {
    && (forall c :: c in contacts ==> IsContactOf(rd, lines, c))
    && (forall role :: SomeLineShows(rd, lines, role) || SomeLineHides(rd, lines, role) ==>
          exists c :: c in contacts && c.role == role)
    && (forall i, j :: 0 <= i < j < |contacts| ==>
          contacts[i].role != contacts[j].role && ToldBefore(rd, lines, contacts[i].role, contacts[j].role))
  }

  lemma MemberIsContactOf(rd: Reader, lines: seq<Line>, roles: seq<Role>, c: Contact)
    requires c in ContactsOf(rd, Mentions(rd, lines), roles)
    ensures IsContactOf(rd, lines, c)
  {
    ContactsMember(rd, Mentions(rd, lines), roles, c);
    EmptyIff(rd, lines, c.role);
    HidesIff(rd, lines, c.role);
    forall f, x ensures c.Get(f) == Some(x) <==> HasLastShown(rd, lines, Slot(c.role, f), x) {
      ContactFieldIs(rd, lines, c.role, f, x);
    }
  }

  lemma ToldRoleHasContact(rd: Reader, lines: seq<Line>, role: Role)
    requires SomeLineShows(rd, lines, role) || SomeLineHides(rd, lines, role)
    ensures exists c :: c in ContactsOf(rd, Mentions(rd, lines), FirstOccurrences(RolesOf(Mentions(rd, lines))))
                        && c.role == role
  {
    var ms := Mentions(rd, lines);
    var i :| 0 <= i < |lines| && Tells(rd, role, lines[i]);
    MentionedIff(rd, lines, role);
    FirstOccurrencesMember(RolesOf(ms), role);
    EmptyIff(rd, lines, role);
    ContactsMember(rd, ms, FirstOccurrences(RolesOf(ms)), ContactOf(rd, ms, role));
  }

  lemma ContactsAre(rd: Reader, lines: seq<Line>)
    ensures AreContactsOf(rd, lines,
                          ContactsOf(rd, Mentions(rd, lines), FirstOccurrences(RolesOf(Mentions(rd, lines)))))
  {
    var ms := Mentions(rd, lines);
    var roles := FirstOccurrences(RolesOf(ms));
    var contacts := ContactsOf(rd, ms, roles);
    FirstOccurrencesElements(RolesOf(ms));
    forall c | c in contacts ensures IsContactOf(rd, lines, c) {
      MemberIsContactOf(rd, lines, roles, c);
    }
    forall role | SomeLineShows(rd, lines, role) || SomeLineHides(rd, lines, role)
      ensures exists c :: c in contacts && c.role == role
    {
      ToldRoleHasContact(rd, lines, role);
    }
    forall i, j | 0 <= i < j < |contacts|
      ensures contacts[i].role != contacts[j].role && ToldBefore(rd, lines, contacts[i].role, contacts[j].role)
    {
      var k, m := ContactsInOrder(rd, ms, roles, i, j);
      RolesInOrder(rd, lines, k, m);
    }
  }

  // ---------------------------------------------------------------------------
  // The answer
  // ---------------------------------------------------------------------------

  /** The date is that of the first line under its keys whose value parses. */
  ghost predicate IsDateOf(rd: Reader, keys: set<string>, lines: seq<Line>, date: Option<int>) {
    forall t :: date == Some(t) <==> HasFirstDate(rd, keys, lines, t)
  }

  lemma DateIsOf(rd: Reader, keys: set<string>, lines: seq<Line>)
    ensures IsDateOf(rd, keys, lines, FirstParsed(rd.date, Values(rd, keys, lines)))
  {
    forall t ensures FirstParsed(rd.date, Values(rd, keys, lines)) == Some(t) <==> HasFirstDate(rd, keys, lines, t) {
      DateIs(rd, keys, lines, t);
    }
  }

  /** The value is that of the first line under its keys. */
  ghost predicate IsValueOf(rd: Reader, keys: set<string>, lines: seq<Line>, value: Option<string>) {
    forall x :: value == Some(x) <==> HasFirstValue(rd, keys, lines, x)
  }

  lemma ValueIsOf(rd: Reader, keys: set<string>, lines: seq<Line>)
    ensures IsValueOf(rd, keys, lines, First(Values(rd, keys, lines)))
  {
    forall x ensures First(Values(rd, keys, lines)) == Some(x) <==> HasFirstValue(rd, keys, lines, x) {
      FirstValueIs(rd, keys, lines, x);
    }
  }

  /** The list has every host name that some line contributes, and none twice. */
  ghost predicate AreServersOf(rd: Reader, v: Vocabulary, lines: seq<Line>, servers: seq<string>) {
    && NoDuplicates(servers)
    && forall name :: name in servers <==> name != [] && IsContributed(rd, v, lines, name)
  }

  lemma ServersAreOf(rd: Reader, v: Vocabulary, lines: seq<Line>)
    ensures AreServersOf(rd, v, lines, FirstOccurrences(Servers(rd, v, lines)))
  {
    FirstOccurrencesElements(Servers(rd, v, lines));
    forall name
      ensures name in FirstOccurrences(Servers(rd, v, lines)) <==> name != [] && IsContributed(rd, v, lines, name)
    {
      ServersAre(rd, v, lines, name);
    }
  }

  /** Every field of the description is what the lines under its own keys say. */
  lemma ParsedSays(rd: Reader, v: Vocabulary, lines: seq<Line>, domain: string)
    ensures var data := Parsed(rd, v, lines, domain);
            && data.domain == domain && data.registered
            && IsDateOf(rd, v.expiry, lines, data.expires)
            && IsDateOf(rd, v.created, lines, data.created)
            && IsDateOf(rd, v.updated, lines, data.updated)
            && IsValueOf(rd, v.registrar, lines, data.registrar)
            && Gathers(rd, v.status, lines, rd.cleanStatus, data.status)
            && AreServersOf(rd, v, lines, data.servers)
            && AreContactsOf(rd, lines, data.contacts)
  {
    DateIsOf(rd, v.expiry, lines);
    DateIsOf(rd, v.created, lines);
    DateIsOf(rd, v.updated, lines);
    ValueIsOf(rd, v.registrar, lines);
    StatusIs(rd, v.status, lines);
    ServersAreOf(rd, v, lines);
    ContactsAre(rd, lines);
  }

  /**
   `parse_whois_text`: an answer that says "not found" is a free domain; of any other text, every field is what the
   lines under its own keys say.
   */
  method ParseWhoisText(text: string, domain: string, date: string -> Option<int>) returns (data: Data)
    ensures DeniesDomain(text) ==> data == Data(domain, false, None, None, None, None, [], [], [])
    ensures !DeniesDomain(text) ==>
      var rd, lines := ReaderOf(IsRuLike(domain), date), ClassifiedLines(text);
      && data.domain == domain && data.registered
      && IsDateOf(rd, EXPIRY_KEYS, lines, data.expires)
      && IsDateOf(rd, CREATED_KEYS, lines, data.created)
      && IsDateOf(rd, UPDATED_KEYS, lines, data.updated)
      && IsValueOf(rd, REGISTRAR_KEYS, lines, data.registrar)
      && Gathers(rd, STATUS_KEYS, lines, FirstWord, data.status)
      && AreServersOf(rd, VOCABULARY, lines, data.servers)
      && AreContactsOf(rd, lines, data.contacts)
      && data == Parsed(rd, VOCABULARY, lines, domain)
  {
    VocabularyIsDistinct();
    ReaderKeepsSecrets(IsRuLike(domain), date);
    SaysNotFoundIff(text);
    data := ParseText(text, domain, ReaderOf(IsRuLike(domain), date), VOCABULARY, NOT_FOUND_PATTERNS);
    ParsedSays(ReaderOf(IsRuLike(domain), date), VOCABULARY, ClassifiedLines(text), domain);
  }
}
