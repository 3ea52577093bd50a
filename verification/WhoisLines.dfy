/**
 What reading a line of a WHOIS text means, said of its characters (src/whois/parser.py, `_KV_RE` and the tests at the
 head of the loop), and which keys name a contact field.
 */
module WhoisLines {
  import opened Sequences
  import opened Text
  import opened WhoisText
  import opened WhoisParser

  // ---------------------------------------------------------------------------
  // The shape of a line
  // ---------------------------------------------------------------------------

  /** Blanks, the key `line[i..j]`, blanks, and the colon at `c`. */
  predicate IsPairAt(line: string, i: nat, j: nat, c: nat) {
    && i < j <= c < |line| && AllBlank(line[..i]) && AllBlank(line[j..c]) && line[c] == ':'
    && IsLetter(line[i]) && !IsSpace(line[j - 1]) && forall k :: i <= k < j ==> IsKeyChar(line[k])
  }

  ghost predicate IsPair(line: string) {
    exists i: nat, j: nat, c: nat :: IsPairAt(line, i, j, c)
  }

  lemma {:induction false} SkipIs(s: string, from: nat, i: nat)
    requires from <= i < |s| && !IsSpace(s[i]) && forall k :: from <= k < i ==> IsSpace(s[k])
    ensures SkipFrom(s, from, IsSpace) == i
    decreases i - from
  {
    if from < i {
      SkipIs(s, from + 1, i);
    }
  }

  lemma TrimmedIs(s: string, k: nat)
    requires 0 < k <= |s| && !IsSpace(s[k - 1]) && AllBlank(s[k..])
    ensures TrimRight(s, IsSpace) == s[..k]
  {
    var r := TrimRight(s, IsSpace);
    forall i | k <= i < |s| ensures IsSpace(s[i]) {
      assert s[i] == s[k..][i - k] && s[k..][i - k] in s[k..];
    }
    assert r != [] ==> r[|r| - 1] == s[|r| - 1];
    assert |r| == k;
  }

  lemma TrimRightShape(s: string)
    ensures var k := |TrimRight(s, IsSpace)|;
            TrimRight(s, IsSpace) == s[..k] && AllBlank(s[k..]) && (k > 0 ==> !IsSpace(s[k - 1]))
  {
    var r := TrimRight(s, IsSpace);
    forall c | c in s[|r|..] ensures IsSpace(c) {
      var i :| |r| <= i < |s| && s[i] == c;
    }
    assert r != [] ==> r[|r| - 1] == s[|r| - 1];
  }

  lemma KeyCharsAre(line: string, i: nat, j: nat)
    requires i <= j <= |line|
    ensures (forall c :: c in line[i..j] ==> IsKeyChar(c)) <==> forall k :: i <= k < j ==> IsKeyChar(line[k])
  {
    forall k | i <= k < j ensures line[k] in line[i..j] {
      SliceMember(line, i, j, k);
    }
  }

  /** The key begins where the leading blanks end. */
  lemma KeyBegins(line: string, i: nat, j: nat, c: nat)
    requires IsPairAt(line, i, j, c)
    ensures SkipFrom(line, 0, IsSpace) == i
  {
    assert line[..i] == line[0..i];
    BlankAt(line, 0, i);
    assert IsKeyChar(line[i]) && !IsSpace(line[i]);
    SkipIs(line, 0, i);
  }

  /** The colon is the first behind it. */
  lemma ColonEnds(line: string, i: nat, j: nat, c: nat)
    requires IsPairAt(line, i, j, c)
    ensures Find(line, i, IsColon) == c
  {
    BlankAt(line, j, c);
    assert forall k :: i <= k < j ==> IsKeyChar(line[k]) && !IsColon(line[k]);
    FindIs(line, i, c, IsColon);
  }

  /** And the key is what stands between them, without its final blanks. */
  lemma KeyEnds(line: string, i: nat, j: nat, c: nat)
    requires IsPairAt(line, i, j, c)
    ensures TrimRight(line[i..c], IsSpace) == line[i..j]
  {
    assert line[i..c][j - i..] == line[j..c] && line[i..c][..j - i] == line[i..j];
    assert line[i..c][j - i - 1] == line[j - 1];
    TrimmedIs(line[i..c], j - i);
  }

  lemma PairIsRead(line: string, i: nat, j: nat, c: nat)
    requires IsPairAt(line, i, j, c)
    ensures KeyValue(line) == Some((line[i..j], line[c + 1..]))
  {
    KeyBegins(line, i, j, c);
    ColonEnds(line, i, j, c);
    KeyEnds(line, i, j, c);
    KeyCharsAre(line, i, j);
  }

  lemma SkippedIsBlank(line: string)
    ensures AllBlank(line[..SkipFrom(line, 0, IsSpace)])
  {
    var i := SkipFrom(line, 0, IsSpace);
    forall x | x in line[..i] ensures IsSpace(x) {
      var k :| 0 <= k < i && line[k] == x;
    }
  }

  lemma TrimmedSlice(line: string, i: nat, c: nat)
    requires i <= c <= |line|
    ensures var j := i + |TrimRight(line[i..c], IsSpace)|;
            TrimRight(line[i..c], IsSpace) == line[i..j] && AllBlank(line[j..c]) && (i < j ==> !IsSpace(line[j - 1]))
  {
    var key := TrimRight(line[i..c], IsSpace);
    TrimRightShape(line[i..c]);
    assert line[i..c][..|key|] == line[i..i + |key|] && line[i..c][|key|..] == line[i + |key|..c];
    assert key != [] ==> line[i..c][|key| - 1] == line[i + |key| - 1];
  }

  lemma ReadIsPair(line: string) returns (i: nat, j: nat, c: nat)
    requires KeyValue(line).Some?
    ensures IsPairAt(line, i, j, c) && KeyValue(line) == Some((line[i..j], line[c + 1..]))
  {
    i := SkipFrom(line, 0, IsSpace);
    c := Find(line, i, IsColon);
    j := i + |TrimRight(line[i..c], IsSpace)|;
    SkippedIsBlank(line);
    TrimmedSlice(line, i, c);
    assert line[i..j][0] == line[i];
    KeyCharsAre(line, i, j);
  }

  lemma IsPairIff(line: string)
    ensures IsPair(line) <==> KeyValue(line).Some?
  {
    if IsPair(line) {
      var i: nat, j: nat, c: nat :| IsPairAt(line, i, j, c);
      PairIsRead(line, i, j, c);
    }
    if KeyValue(line).Some? {
      var i, j, c := ReadIsPair(line);
    }
  }

  /** Behind leading blanks the line begins with one of the marks of a comment. */
  predicate IsCommentAt(line: string, k: nat) {
    && k < |line| && AllBlank(line[..k])
    && (line[k] == '%' || line[k] == '#' || (k + 3 <= |line| && line[k] == line[k + 1] == line[k + 2] == '>'))
  }

  ghost predicate IsCommentLine(line: string) {
    exists k: nat :: IsCommentAt(line, k)
  }

  lemma ArrowsStay(line: string, k: nat, m: nat)
    requires k < m <= |line| && Strip(line) == line[k..m] && AllBlank(line[m..])
    requires k + 3 <= |line| && line[k] == line[k + 1] == line[k + 2] == '>'
    ensures StartsWith(Strip(line), ">>>")
  {
    assert line[m..] == line[m..|line|];
    BlankAt(line, m, |line|);
    assert m >= k + 3;
    assert line[k..m][..3] == [line[k], line[k + 1], line[k + 2]];
  }

  lemma MarksAre(s: string)
    ensures StartsWith(s, "%") <==> s != [] && s[0] == '%'
    ensures StartsWith(s, "#") <==> s != [] && s[0] == '#'
    ensures StartsWith(s, ">>>") ==> |s| >= 3 && s[0] == s[1] == s[2] == '>'
  {
    assert StartsWith(s, "%") ==> s[..1] == "%";
    assert StartsWith(s, "#") ==> s[..1] == "#";
    assert StartsWith(s, ">>>") ==> s[..3] == ">>>";
    assert s != [] ==> s[..1] == [s[0]];
  }

  /** A mark behind blanks stands where the stripped line begins. */
  lemma MarkBegins(line: string, k: nat, i: nat)
    requires k < |line| && AllBlank(line[..k]) && !IsSpace(line[k]) && IsCommentAt(line, i)
    ensures i == k
  {
    NotBefore(line, i, k);
    NotBefore(line, k, i);
  }

  lemma CommentIff(line: string)
    requires !AllBlank(line)
    ensures IsComment(Strip(line)) <==> IsCommentLine(line)
  {
    StripIsEmptyIff(line);
    var k, m := StripShape(line);
    var s := Strip(line);
    MarksAre(s);
    assert s[0] == line[k];
    if IsComment(s) {
      assert StartsWith(s, ">>>") ==> line[k + 1] == s[1] && line[k + 2] == s[2];
      assert IsCommentAt(line, k);
    }
    if i: nat :| IsCommentAt(line, i) {
      MarkBegins(line, k, i);
      if line[k] == '>' {
        ArrowsStay(line, k, m);
      }
    }
  }

  lemma MarksOfIndent(line: string)
    ensures StartsWith(line, " ") || StartsWith(line, "\t") <==> line != [] && (line[0] == ' ' || line[0] == '\t')
  {
    assert StartsWith(line, " ") ==> line[..1] == " ";
    assert StartsWith(line, "\t") ==> line[..1] == "\t";
    assert line != [] ==> line[..1] == [line[0]];
  }

  /** `l` is the pair at these positions: the key in lower case, the value without outer blanks. */
  predicate IsPairOf(line: string, l: Line, i: nat, j: nat, c: nat) {
    IsPairAt(line, i, j, c) && l == Pair(Lower(line[i..j]), Strip(line[c + 1..]))
  }

  /**
   How the loop sees a line: a break, when it is blank or a comment; else a pair, when it has the shape of one, with the
   key in lower case and the value without outer blanks; else an indented text, when it begins with a blank or a tab.
   */
  lemma ClassifyIs(line: string)
    ensures Classify(line).Break? <==> AllBlank(line) || IsCommentLine(line)
    ensures Classify(line).Pair? <==> !AllBlank(line) && !IsCommentLine(line) && IsPair(line)
    ensures Classify(line).Pair? ==> exists i: nat, j: nat, c: nat :: IsPairOf(line, Classify(line), i, j, c)
    ensures Classify(line).Indented? <==>
              !AllBlank(line) && !IsCommentLine(line) && !IsPair(line) && (line[0] == ' ' || line[0] == '\t')
    ensures Classify(line).Indented? ==> Classify(line).text == Strip(line)
  {
    StripIsEmptyIff(line);
    IsPairIff(line);
    MarksOfIndent(line);
    if !AllBlank(line) {
      CommentIff(line);
      if Classify(line).Pair? {
        var i, j, c := ReadIsPair(line);
        assert IsPairOf(line, Classify(line), i, j, c);
      }
    }
  }

  // ---------------------------------------------------------------------------
  // Values
  // ---------------------------------------------------------------------------

  lemma IsUrlIff(value: string)
    ensures IsUrl(value) <==> BeginsWith(value, "http://") || BeginsWith(value, "https://")
  {
    assert Lower("http://") == "http://" && Lower("https://") == "https://";
    BeginsWithIff(value, "http://");
    BeginsWithIff(value, "https://");
  }

  lemma EndsLikeIff(s: string, suffix: string)
    requires Lower(suffix) == suffix
    ensures EndsLike(s, suffix) <==> EndsWith(Lower(s), suffix)
  {
    if |suffix| <= |s| {
      EqualUpToCaseIff(s[|s| - |suffix|..], suffix);
      assert Lower(s)[|s| - |suffix|..] == Lower(s[|s| - |suffix|..]);
    }
  }

  lemma IsRuLikeIff(domain: string)
    ensures IsRuLike(domain) <==> EndsLike(domain, ".ru") || EndsLike(domain, ".su") || EndsLike(domain, ".xn--p1ai")
  {
    assert Lower(".ru") == ".ru" && Lower(".su") == ".su" && Lower(".xn--p1ai") == ".xn--p1ai";
    EndsLikeIff(domain, ".ru");
    EndsLikeIff(domain, ".su");
    EndsLikeIff(domain, ".xn--p1ai");
  }

  /** `word` is what stands before the first blank. */
  predicate IsFirstWord(value: string, word: string) {
    word <= value && (forall c :: c in word ==> !IsSpace(c)) && (|word| < |value| ==> IsSpace(value[|word|]))
  }

  lemma FirstWordIs(value: string)
    ensures IsFirstWord(value, FirstWord(value))
  {
    forall c | c in FirstWord(value) ensures !IsSpace(c) {
      var i :| 0 <= i < |FirstWord(value)| && value[i] == c;
    }
  }

  /** A host name is the first word of its value, in lower case and without final dots. */
  lemma CleanServerIs(value: string)
    ensures exists word :: IsFirstWord(value, word) && IsCleaned(word, CleanServer(value))
  {
    FirstWordIs(value);
    LowerStemIsCleaned(FirstWord(value));
  }

  /** A contact field keeps its value without outer blanks; a country of two or three letters in capitals. */
  lemma StoreIs(f: Field, raw: string)
    ensures EqualUpToCase(Store(f, raw), Strip(raw))
    ensures f != Country || |Strip(raw)| < 2 || |Strip(raw)| > 3 ==> Store(f, raw) == Strip(raw)
    ensures f == Country && 2 <= |Strip(raw)| <= 3 ==> forall c :: c in Store(f, raw) ==> c !in SMALL_LETTERS
  {
    var cleaned, kept := Strip(raw), Store(f, raw);
    forall i | 0 <= i < |kept| ensures SameLetter(kept[i], cleaned[i]) {
      AreCasesIff(kept[i], cleaned[i]);
    }
    forall c | c in Upper(cleaned) ensures c !in SMALL_LETTERS {
      SmallLettersAre(c);
    }
  }

  lemma SmallLettersAre(c: char)
    ensures c in SMALL_LETTERS ==> 'a' <= c <= 'z'
  {
    if c in SMALL_LETTERS {
      var i :| 0 <= i < |SMALL_LETTERS| && SMALL_LETTERS[i] == c;
      LettersAt(i);
    }
  }

  lemma InSetIff(value: string, tokens: set<string>)
    requires forall t :: t in tokens ==> Lower(t) == t
    ensures Lower(value) in tokens <==> exists t :: t in tokens && EqualUpToCase(value, t)
  {
    if Lower(value) in tokens {
      EqualUpToCaseIff(value, Lower(value));
    }
    if t :| t in tokens && EqualUpToCase(value, t) {
      EqualUpToCaseIff(value, t);
    }
  }

  lemma LongTokensAreLower(t: string)
    requires |t| > 14 && t in PRIVACY_TOKENS
    ensures Lower(t) == t
  {
    forall i | 0 <= i < |t| ensures Lower(t)[i] == t[i] {
    }
  }

  lemma TokensAreLower(t: string)
    requires t in PRIVACY_TOKENS
    ensures Lower(t) == t
  {
    if |t| > 14 {
      LongTokensAreLower(t);
    } else {
      forall i | 0 <= i < |t| ensures Lower(t)[i] == t[i] {
      }
    }
  }

  /** One of the texts, in any letter case, outer blanks aside. */
  ghost predicate IsOneOf(value: string, tokens: set<string>) {
    exists t :: t in tokens && EqualUpToCase(Strip(value), t)
  }

  /** A placeholder is one of the known texts. */
  lemma PlaceholderIff(value: string)
    ensures IsPrivate(value) <==> IsOneOf(value, PRIVACY_TOKENS)
    ensures IsRedacted(value) <==> IsOneOf(value, REDACTED_VALUES)
  {
    forall t | t in PRIVACY_TOKENS ensures Lower(t) == t {
      TokensAreLower(t);
    }
    assert REDACTED_VALUES <= PRIVACY_TOKENS;
    InSetIff(Strip(value), PRIVACY_TOKENS);
    InSetIff(Strip(value), REDACTED_VALUES);
  }

  // ---------------------------------------------------------------------------
  // Contact keys
  // ---------------------------------------------------------------------------

  /** The field that two parts of a key name, outer blanks aside. */
  function SlotNamed(before: string, after: string): Option<Slot> {
    if Strip(before) in ROLE_PREFIXES && Strip(after) in FIELD_NAMES
    then Some(Slot(ROLE_PREFIXES[Strip(before)], FIELD_NAMES[Strip(after)])) else None
  }

  /** What stands around the first `separator` of the key names the field. */
  predicate SplitsAt(named: (string, string) -> Option<Slot>, key: string, separator: char, slot: Slot, k: nat) {
    && k < |key| && key[k] == separator && separator !in key[..k]
    && named(key[..k], key[k + 1..]) == Some(slot)
  }

  ghost predicate Splits(named: (string, string) -> Option<Slot>, key: string, separator: char, slot: Slot) {
    exists k: nat :: SplitsAt(named, key, separator, slot, k)
  }

  function SplitBy(named: (string, string) -> Option<Slot>, key: string, isSeparator: char -> bool): Option<Slot> {
    var k := Find(key, 0, isSeparator);
    if k == |key| then None else named(key[..k], key[k + 1..])
  }

  lemma SplitAtIsSplitBy(key: string, isSeparator: char -> bool)
    ensures SplitAt(key, isSeparator, ROLE_PREFIXES, FIELD_NAMES) == SplitBy(SlotNamed, key, isSeparator)
  {
  }

  lemma FirstSeparator(key: string, separator: char, isSeparator: char -> bool, k: nat)
    requires forall c :: isSeparator(c) <==> c == separator
    requires k < |key|
    ensures Find(key, 0, isSeparator) == k <==> key[k] == separator && separator !in key[..k]
  {
    if key[k] == separator && separator !in key[..k] {
      forall i | 0 <= i < k ensures !isSeparator(key[i]) {
        SliceMember(key, 0, k, i);
        assert key[..k] == key[0..k];
      }
      FindIs(key, 0, k, isSeparator);
    }
  }

  lemma SplitByIff(named: (string, string) -> Option<Slot>, key: string, separator: char, isSeparator: char -> bool,
                   slot: Slot)
    requires forall c :: isSeparator(c) <==> c == separator
    ensures SplitBy(named, key, isSeparator) == Some(slot) <==> Splits(named, key, separator, slot)
  {
    if j: nat :| SplitsAt(named, key, separator, slot, j) {
      FirstSeparator(key, separator, isSeparator, j);
    }
    if SplitBy(named, key, isSeparator) == Some(slot) {
      var k := Find(key, 0, isSeparator);
      FirstSeparator(key, separator, isSeparator, k);
      assert SplitsAt(named, key, separator, slot, k);
    }
  }

  /** The key is split at a dot, or else at a blank. */
  ghost predicate SplitsFirst(named: (string, string) -> Option<Slot>, key: string, slot: Slot) {
    || Splits(named, key, '.', slot)
    || (Splits(named, key, ' ', slot) && forall other :: !Splits(named, key, '.', other))
  }

  /** Neither at a dot nor at a blank. */
  ghost predicate IsWhole(named: (string, string) -> Option<Slot>, key: string) {
    forall slot :: !SplitsFirst(named, key, slot)
  }

  lemma SplitsFirstIff(named: (string, string) -> Option<Slot>, key: string, slot: Slot)
    ensures var byDot := SplitBy(named, key, IsDot);
            SplitsFirst(named, key, slot) <==>
              (if byDot.Some? then byDot else SplitBy(named, key, IsBlank)) == Some(slot)
  {
    var byDot := SplitBy(named, key, IsDot);
    forall s ensures byDot == Some(s) <==> Splits(named, key, '.', s) {
      SplitByIff(named, key, '.', IsDot, s);
    }
    SplitByIff(named, key, ' ', IsBlank, slot);
    if byDot.Some? {
      assert Splits(named, key, '.', byDot.value);
    }
  }

  lemma SplitContactKeyIff(key: string)
    ensures var split := SplitContactKey(key, ROLE_PREFIXES, FIELD_NAMES);
            && (forall slot :: split == Some(slot) <==> SplitsFirst(SlotNamed, key, slot))
            && (split.None? <==> IsWhole(SlotNamed, key))
  {
    var split := SplitContactKey(key, ROLE_PREFIXES, FIELD_NAMES);
    SplitAtIsSplitBy(key, IsDot);
    SplitAtIsSplitBy(key, IsBlank);
    forall slot ensures split == Some(slot) <==> SplitsFirst(SlotNamed, key, slot) {
      SplitsFirstIff(SlotNamed, key, slot);
    }
    if split.Some? {
      assert SplitsFirst(SlotNamed, key, split.value);
    }
  }

  /**
   Which contact field a key names: that of its split, a dot before a blank; of a whole key, for Russian registries that
   of its own table; else the organization of the registrant, for three keys; else none.
   */
  lemma ContactKeyIff(ruLike: bool, key: string, slot: Slot)
    ensures ContactKey(ruLike, key) == Some(slot) <==>
              || SplitsFirst(SlotNamed, key, slot)
              || (IsWhole(SlotNamed, key) && ruLike && key in RU_REGISTRANT_KEYS
                  && slot == Slot(Registrant, RU_REGISTRANT_KEYS[key]))
              || (IsWhole(SlotNamed, key) && !(ruLike && key in RU_REGISTRANT_KEYS)
                  && key in {"registrant", "holder", "registrant holder"} && slot == Slot(Registrant, Organization))
  {
    SplitContactKeyIff(key);
    RecogniseIs(SplitContactKey(key, ROLE_PREFIXES, FIELD_NAMES), ruLike, key);
  }

  lemma RecogniseIs(split: Option<Slot>, ruLike: bool, key: string)
    ensures split.Some? ==> Recognise(split, ruLike, key) == split
    ensures split.None? && ruLike && key in RU_REGISTRANT_KEYS ==>
      Recognise(split, ruLike, key) == Some(Slot(Registrant, RU_REGISTRANT_KEYS[key]))
    ensures split.None? && !(ruLike && key in RU_REGISTRANT_KEYS) ==>
      Recognise(split, ruLike, key) == if key in {"registrant", "holder", "registrant holder"}
                                       then Some(Slot(Registrant, Organization)) else None
  {
  }

  // ---------------------------------------------------------------------------
  // What a line says
  // ---------------------------------------------------------------------------

  /**
   A line gives a plain field a value when its key is one of the field's, names no contact field, and the value is
   neither empty nor a placeholder; with no such value, a key for name servers opens a list.
   */
  lemma ReadsIff(ruLike: bool, date: string -> Option<int>, keys: set<string>, l: Line)
    ensures Reads(ReaderOf(ruLike, date), keys, l)
       <==> l.Pair? && l.key in keys && ContactKey(ruLike, l.key).None?
            && l.raw != [] && !IsOneOf(l.raw, REDACTED_VALUES)
    ensures Opens(ReaderOf(ruLike, date), VOCABULARY, l)
       <==> l.Pair? && l.key in SERVER_KEYS && ContactKey(ruLike, l.key).None?
            && (l.raw == [] || IsOneOf(l.raw, REDACTED_VALUES))
  {
    if l.Pair? {
      PlaceholderIff(l.raw);
    }
  }

  /**
   A line mentions a contact field when its key names it and its value is no link. The value is hidden when it is a
   placeholder of either kind, and shown when it is none and not blank.
   */
  lemma MentionIff(ruLike: bool, date: string -> Option<int>, l: Line, m: Mention)
    ensures MentionAt(ReaderOf(ruLike, date), l) == [m]
       <==> l.Pair? && ContactKey(ruLike, l.key) == Some(m.slot) && l.raw == m.raw
            && !BeginsWith(l.raw, "http://") && !BeginsWith(l.raw, "https://")
    ensures IsHidden(ReaderOf(ruLike, date), m.raw) <==> IsOneOf(m.raw, PRIVACY_TOKENS)
    ensures IsShown(ReaderOf(ruLike, date), m.raw) <==> !IsOneOf(m.raw, PRIVACY_TOKENS) && !AllBlank(m.raw)
  {
    PlaceholderIff(m.raw);
    StripIsEmptyIff(m.raw);
    assert REDACTED_VALUES <= PRIVACY_TOKENS;
    if l.Pair? {
      IsUrlIff(l.raw);
    }
  }
}
