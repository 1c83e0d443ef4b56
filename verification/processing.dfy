/**
 * The sanitizer and formatter of scripts/processing.py: `preprocess_text`, a
 * fixed chain of two rejections (euro-exchange notices and links), two
 * placeholder substitutions (phone numbers and e-mail addresses), two character
 * deletions (Hangul jamo, then everything but word characters, whitespace and
 * `, . ! ?`) and a final strip; and the per-record decision of `process_jsonl`,
 * which joins the non-empty cleaned strings of each side and drops the record
 * when either side comes out empty.
 *
 * The phone and e-mail patterns are matched exactly as Python's backtracking
 * engine does for these two patterns (leftmost match, greedy quantifiers), by
 * the functions `PhoneAt` and `EmailAt`.
 */
module Processing {
  import opened Wrappers
  import opened Text

  // ---------------------------------------------------------------------------
  // Character classes
  // ---------------------------------------------------------------------------

  /**
   * The regex class `\w`, restricted to the scripts the chat uses: ASCII letters,
   * digits and `_`, the Latin-1 letters, Hangul (jamo, compatibility jamo and
   * syllables) and the CJK unified ideographs.
   */
  predicate IsWordChar(c: char) {
    || IsAsciiLetter(c) || IsDigit(c) || c == '_'
    || c == '\U{AA}' || c == '\U{B5}' || c == '\U{BA}'
    || ('\U{C0}' <= c <= '\U{FF}' && c != '\U{D7}' && c != '\U{F7}')
    || ('\U{1100}' <= c <= '\U{11FF}')
    || ('\U{3131}' <= c <= '\U{318E}')
    || ('\U{AC00}' <= c <= '\U{D7A3}')
    || ('\U{4E00}' <= c <= '\U{9FFF}')
  }

  /** The class `[ㄱ-ㅎㅏ-ㅣ]`: Hangul compatibility consonants and vowels. */
  predicate IsJamo(c: char) {
    'ㄱ' <= c <= 'ㅣ'
  }

  /** What the last deletion keeps: the complement of `[^\w\s,.!?]`. */
  predicate Allowed(c: char) {
    IsWordChar(c) || IsSpace(c) || c == ',' || c == '.' || c == '!' || c == '?'
  }

  // ---------------------------------------------------------------------------
  // The phone pattern `\d{2,3}[-\s]?\d{3,4}[-\s]?\d{4}`
  // ---------------------------------------------------------------------------

  /** One way the pattern can match: the two digit-group widths and which separators are present. */
  datatype Shape = Shape(first: nat, sep1: bool, second: nat, sep2: bool)

  function SepWidth(present: bool): nat {
    if present then 1 else 0
  }

  /** The number of characters a shape spans. */
  function ShapeLen(sh: Shape): nat {
    sh.first + SepWidth(sh.sep1) + sh.second + SepWidth(sh.sep2) + 4
  }

  /** `[-\s]`. */
  predicate IsPhoneSep(c: char) {
    c == '-' || IsSpace(c)
  }

  /** `n` digits start at position `i`. */
  predicate DigitsAt(s: string, i: nat, n: nat) {
    i + n <= |s| && forall k :: i <= k < i + n ==> IsDigit(s[k])
  }

  /** The shape matches at the start of `s`. */
  predicate ShapeMatches(s: string, sh: Shape) {
    var i1 := sh.first;
    var i2 := i1 + SepWidth(sh.sep1);
    var i3 := i2 + sh.second;
    var i4 := i3 + SepWidth(sh.sep2);
    && DigitsAt(s, 0, sh.first)
    && (sh.sep1 ==> i1 < |s| && IsPhoneSep(s[i1]))
    && DigitsAt(s, i2, sh.second)
    && (sh.sep2 ==> i3 < |s| && IsPhoneSep(s[i3]))
    && DigitsAt(s, i4, 4)
  }

  /** The widths and separators the pattern admits. */
  predicate PhoneShape(sh: Shape) {
    (sh.first == 2 || sh.first == 3) && (sh.second == 3 || sh.second == 4)
  }

  /** The first alternative that matched, else the second: one backtracking choice point. */
  function OrElse(x: Option<nat>, y: Option<nat>): Option<nat> {
    if x.Some? then x else y
  }

  /** The attempt with every choice made. */
  function TryShape(s: string, sh: Shape): Option<nat> {
    if ShapeMatches(s, sh) then Some(ShapeLen(sh)) else None
  }

  /** The second `[-\s]?`: with the separator first, then without. */
  function TrySep2(s: string, first: nat, sep1: bool, second: nat): Option<nat> {
    OrElse(TryShape(s, Shape(first, sep1, second, true)), TryShape(s, Shape(first, sep1, second, false)))
  }

  /** `\d{3,4}`: four digits first, then three. */
  function TrySecond(s: string, first: nat, sep1: bool): Option<nat> {
    OrElse(TrySep2(s, first, sep1, 4), TrySep2(s, first, sep1, 3))
  }

  /** The first `[-\s]?`: with the separator first, then without. */
  function TrySep1(s: string, first: nat): Option<nat> {
    OrElse(TrySecond(s, first, true), TrySecond(s, first, false))
  }

  /**
   * The length of the phone match at the beginning of `s`, if any: `\d{2,3}`
   * tries three digits first, then two, and inside each choice the later
   * quantifiers back off in turn, so the first shape that matches in that order
   * decides the length.
   */
  function PhoneAt(s: string): Option<nat> {
    OrElse(TrySep1(s, 3), TrySep1(s, 2))
  }

  /** The second separator succeeds exactly when one of its two choices gives a match. */
  lemma TrySep2Spec(s: string, first: nat, sep1: bool, second: nat)
    ensures var r := TrySep2(s, first, sep1, second);
      && (r.Some? <==> exists sep2 :: ShapeMatches(s, Shape(first, sep1, second, sep2)))
      && (r.Some? ==>
            exists sep2 :: ShapeMatches(s, Shape(first, sep1, second, sep2)) && r.value == ShapeLen(Shape(first, sep1, second, sep2)))
  {
    if TrySep2(s, first, sep1, second).None? {
      forall sep2 ensures !ShapeMatches(s, Shape(first, sep1, second, sep2)) {
        assert TryShape(s, Shape(first, sep1, second, sep2)).None?;
      }
    }
  }

  /** The second group succeeds exactly when one of its widths, with either second separator, gives a match. */
  lemma TrySecondSpec(s: string, first: nat, sep1: bool)
    requires first == 2 || first == 3
    ensures var r := TrySecond(s, first, sep1);
      && (r.Some? <==> exists sh :: PhoneShape(sh) && sh.first == first && sh.sep1 == sep1 && ShapeMatches(s, sh))
      && (r.Some? ==>
            exists sh :: PhoneShape(sh) && sh.first == first && sh.sep1 == sep1 && ShapeMatches(s, sh) && r.value == ShapeLen(sh))
  {
    SecondChoices(s, first, sep1);
    TrySecondLength(s, first, sep1);
  }

  /** A match with a given first group and first separator makes one of the two widths succeed. */
  lemma SecondChoices(s: string, first: nat, sep1: bool)
    ensures (exists sh :: PhoneShape(sh) && sh.first == first && sh.sep1 == sep1 && ShapeMatches(s, sh)) ==>
      TrySecond(s, first, sep1).Some?
  {
    if exists sh :: PhoneShape(sh) && sh.first == first && sh.sep1 == sep1 && ShapeMatches(s, sh) {
      var sh :| PhoneShape(sh) && sh.first == first && sh.sep1 == sep1 && ShapeMatches(s, sh);
      TrySep2Spec(s, first, sep1, sh.second);
      assert ShapeMatches(s, Shape(first, sep1, sh.second, sh.sep2));
    }
  }

  /** What the second group finds is the length of a matching shape. */
  lemma TrySecondLength(s: string, first: nat, sep1: bool)
    requires first == 2 || first == 3
    ensures var r := TrySecond(s, first, sep1);
      r.Some? ==>
        exists sh :: PhoneShape(sh) && sh.first == first && sh.sep1 == sep1 && ShapeMatches(s, sh) && r.value == ShapeLen(sh)
  {
    var r := TrySecond(s, first, sep1);
    if r.Some? {
      var second := if TrySep2(s, first, sep1, 4).Some? then 4 else 3;
      TrySep2Spec(s, first, sep1, second);
      var sep2 :| ShapeMatches(s, Shape(first, sep1, second, sep2)) && r.value == ShapeLen(Shape(first, sep1, second, sep2));
      assert PhoneShape(Shape(first, sep1, second, sep2));
    }
  }

  /** The first separator succeeds exactly when a match begins with a group of the given width. */
  lemma TrySep1Spec(s: string, first: nat)
    requires first == 2 || first == 3
    ensures var r := TrySep1(s, first);
      && (r.Some? <==> exists sh :: PhoneShape(sh) && sh.first == first && ShapeMatches(s, sh))
      && (r.Some? ==> exists sh :: PhoneShape(sh) && sh.first == first && ShapeMatches(s, sh) && r.value == ShapeLen(sh))
  {
    TrySecondSpec(s, first, true);
    TrySecondSpec(s, first, false);
    if exists sh :: PhoneShape(sh) && sh.first == first && ShapeMatches(s, sh) {
      var sh :| PhoneShape(sh) && sh.first == first && ShapeMatches(s, sh);
      assert sh.sep1 || !sh.sep1;
    }
  }

  /**
   * The phone matcher succeeds exactly when some shape of the pattern matches at
   * the beginning of the text, and its length is that of a matching shape, nine
   * to thirteen characters within the text.
   */
  lemma PhoneAtSpec(s: string)
    ensures var r := PhoneAt(s);
      && (r.Some? <==> exists sh :: PhoneShape(sh) && ShapeMatches(s, sh))
      && (r.Some? ==> exists sh :: PhoneShape(sh) && ShapeMatches(s, sh) && r.value == ShapeLen(sh))
      && (r.Some? ==> 9 <= r.value <= |s|)
  {
    TrySep1Spec(s, 3);
    TrySep1Spec(s, 2);
    ShapeLenBounds(s);
    if exists sh :: PhoneShape(sh) && ShapeMatches(s, sh) {
      var sh :| PhoneShape(sh) && ShapeMatches(s, sh);
      assert sh.first == 3 || sh.first == 2;
    }
  }

  /** A match of the pattern spans nine to thirteen characters of the text. */
  lemma ShapeLenBounds(s: string)
    ensures forall sh :: PhoneShape(sh) && ShapeMatches(s, sh) ==> 9 <= ShapeLen(sh) <= |s|
  {
    forall sh | PhoneShape(sh) && ShapeMatches(s, sh) ensures 9 <= ShapeLen(sh) <= |s| {
      assert DigitsAt(s, ShapeLen(sh) - 4, 4);
    }
  }

  /** The words inside the two placeholders `[PHONE]` and `[EMAIL]`. */
  const PhoneLabel: string := "PHONE"
  const EmailLabel: string := "EMAIL"

  /** A placeholder: its word in square brackets. */
  function Placeholder(word: string): string {
    "[" + word + "]"
  }

  /** `re.sub` of the phone pattern by `[PHONE]`: leftmost matches, left to right, no overlap. */
  function ReplacePhones(s: string): string
    decreases |s|
  {
    if s == [] then []
    else match PhoneAt(s)
      case Some(n) =>
        PhoneAtSpec(s);
        Placeholder(PhoneLabel) + ReplacePhones(s[n..])
      case None => [s[0]] + ReplacePhones(s[1..])
  }

  /** Where a match can begin: two digits, then a digit or a separator. */
  predicate PhoneStart(s: string, k: nat) {
    k + 2 < |s| && IsDigit(s[k]) && IsDigit(s[k + 1]) && (IsDigit(s[k + 2]) || IsPhoneSep(s[k + 2]))
  }

  /** Every match begins with two digits followed by a digit or a separator. */
  lemma PhoneStartsWithDigits(s: string)
    requires PhoneAt(s).Some?
    ensures PhoneStart(s, 0)
  {
    PhoneAtSpec(s);
    var sh :| PhoneShape(sh) && ShapeMatches(s, sh);
    assert DigitsAt(s, 0, sh.first);
    if sh.first == 2 && !sh.sep1 {
      assert DigitsAt(s, 2, sh.second);
    }
  }

  /** Text where no match can begin is left as it is. */
  lemma {:induction false} NoPhoneUnchanged(s: string)
    requires forall k: nat :: !PhoneStart(s, k)
    ensures ReplacePhones(s) == s
    decreases |s|
  {
    if s != [] {
      if PhoneAt(s).Some? {
        PhoneStartsWithDigits(s);
        assert false;
      }
      forall k: nat ensures !PhoneStart(s[1..], k) {
        assert !PhoneStart(s, k + 1);
      }
      NoPhoneUnchanged(s[1..]);
    }
  }

  /** A prefix without digits is copied, and the substitution carries on after it. */
  lemma {:induction false} DigitFreePrefix(p: string, rest: string)
    requires forall k :: 0 <= k < |p| ==> !IsDigit(p[k])
    ensures ReplacePhones(p + rest) == p + ReplacePhones(rest)
    decreases |p|
  {
    if p != [] {
      var s := p + rest;
      assert s[0] == p[0];
      if PhoneAt(s).Some? {
        PhoneStartsWithDigits(s);
        assert false;
      }
      assert s[1..] == p[1..] + rest;
      assert ReplacePhones(s) == [p[0]] + ReplacePhones(p[1..] + rest);
      DigitFreePrefix(p[1..], rest);
      AppendAssoc([p[0]], p[1..], ReplacePhones(rest));
      assert [p[0]] + p[1..] == p;
    } else {
      AppendEmpty(rest);
      AppendEmpty(ReplacePhones(rest));
    }
  }

  // ---------------------------------------------------------------------------
  // The e-mail pattern `[a-zA-Z0-9._%+-]+@[a-zA-Z0-9.-]+\.[a-zA-Z]{2,}`
  // ---------------------------------------------------------------------------

  /** The three character classes of the pattern. */
  datatype CharClass = LocalPart | DomainPart | TopLevel

  predicate InClass(c: char, cls: CharClass) {
    match cls
    case LocalPart => IsAsciiLetter(c) || IsDigit(c) || c == '.' || c == '_' || c == '%' || c == '+' || c == '-'
    case DomainPart => IsAsciiLetter(c) || IsDigit(c) || c == '.' || c == '-'
    case TopLevel => IsAsciiLetter(c)
  }

  /** The length of the longest run of `cls` characters starting at `i`: what a greedy `+` takes. */
  function RunLength(s: string, i: nat, cls: CharClass): (n: nat)
    requires i <= |s|
    ensures i + n <= |s|
    decreases |s| - i
  {
    if i < |s| && InClass(s[i], cls) then 1 + RunLength(s, i + 1, cls) else 0
  }

  /** The run is made of `cls` characters and is maximal: it stops at the end or at another character. */
  lemma {:induction false} RunLengthSpec(s: string, i: nat, cls: CharClass)
    requires i <= |s|
    ensures var n := RunLength(s, i, cls);
      && (forall k :: i <= k < i + n ==> InClass(s[k], cls))
      && (i + n == |s| || !InClass(s[i + n], cls))
    decreases |s| - i
  {
    if i < |s| && InClass(s[i], cls) {
      RunLengthSpec(s, i + 1, cls);
    }
  }

  /** A dot at `d` followed by two letters: where `\.[a-zA-Z]{2,}` can start. */
  predicate DotBeforeLetters(s: string, d: nat) {
    d + 2 < |s| && s[d] == '.' && IsAsciiLetter(s[d + 1]) && IsAsciiLetter(s[d + 2])
  }

  /** The last position in `[lo, hi)` where the top-level part can start: the greedy domain backs off to it. */
  function LastDot(s: string, lo: nat, hi: nat): (r: Option<nat>)
    ensures r.Some? ==> lo <= r.value < hi
    decreases hi
  {
    if hi <= lo then None
    else if DotBeforeLetters(s, hi - 1) then Some(hi - 1)
    else LastDot(s, lo, hi - 1)
  }

  /** `LastDot` finds the largest candidate position in the range, and finds none only when there is none. */
  lemma {:induction false} LastDotSpec(s: string, lo: nat, hi: nat)
    ensures var r := LastDot(s, lo, hi);
      && (r.Some? ==> DotBeforeLetters(s, r.value) && forall d :: r.value < d < hi ==> !DotBeforeLetters(s, d))
      && (r.None? ==> forall d :: lo <= d < hi ==> !DotBeforeLetters(s, d))
    decreases hi
  {
    if lo < hi && !DotBeforeLetters(s, hi - 1) {
      LastDotSpec(s, lo, hi - 1);
    }
  }

  /**
   * The e-mail regex matches the first `n` characters of `s` with the `@` at `at`
   * and the last dot at `dot`: a local part, `@`, a domain part, `.`, and at least
   * two letters.
   */
  predicate EmailSplit(s: string, n: nat, at: nat, dot: nat) {
    && 0 < at < dot - 1 && dot + 2 < n <= |s|
    && (forall k :: 0 <= k < at ==> InClass(s[k], LocalPart))
    && s[at] == '@'
    && (forall k :: at < k < dot ==> InClass(s[k], DomainPart))
    && s[dot] == '.'
    && (forall k :: dot < k < n ==> InClass(s[k], TopLevel))
  }

  /** The length of the e-mail match at the beginning of `s`, if any. */
  function EmailAt(s: string): (r: Option<nat>) {
    var at := RunLength(s, 0, LocalPart);
    if at == 0 || at == |s| || s[at] != '@' then None
    else
      var end := at + 1 + RunLength(s, at + 1, DomainPart);
      match LastDot(s, at + 2, end)
      case None => None
      case Some(dot) => Some(dot + 1 + RunLength(s, dot + 1, TopLevel))
  }

  /** What `EmailAt` finds is a match of the pattern. */
  lemma EmailAtSound(s: string)
    requires EmailAt(s).Some?
    ensures exists at, dot :: EmailSplit(s, EmailAt(s).value, at, dot)
    ensures 0 < EmailAt(s).value <= |s|
  {
    var at := RunLength(s, 0, LocalPart);
    var end := at + 1 + RunLength(s, at + 1, DomainPart);
    var dot := LastDot(s, at + 2, end).value;
    var n := dot + 1 + RunLength(s, dot + 1, TopLevel);
    assert EmailAt(s) == Some(n);
    RunLengthSpec(s, 0, LocalPart);
    RunLengthSpec(s, at + 1, DomainPart);
    LastDotSpec(s, at + 2, end);
    RunLengthSpec(s, dot + 1, TopLevel);
    assert EmailSplit(s, n, at, dot);
  }

  /** Whenever the pattern matches at the beginning of `s`, `EmailAt` finds a match. */
  lemma EmailAtComplete(s: string, n: nat, at: nat, dot: nat)
    requires EmailSplit(s, n, at, dot)
    ensures EmailAt(s).Some?
  {
    assert !InClass(s[at], LocalPart);
    RunLengthSpec(s, 0, LocalPart);
    assert RunLength(s, 0, LocalPart) == at;
    var end := at + 1 + RunLength(s, at + 1, DomainPart);
    RunLengthSpec(s, at + 1, DomainPart);
    LastDotSpec(s, at + 2, end);
    assert dot + 2 < end by {
      forall k | at < k <= dot + 2 ensures InClass(s[k], DomainPart) {
        if k > dot { assert InClass(s[k], TopLevel); }
      }
    }
    assert DotBeforeLetters(s, dot) by {
      assert InClass(s[dot + 1], TopLevel) && InClass(s[dot + 2], TopLevel);
    }
  }

  /** `re.sub` of the e-mail pattern by `[EMAIL]`. */
  function ReplaceEmails(s: string): string
    decreases |s|
  {
    if s == [] then []
    else match EmailAt(s)
      case Some(n) =>
        // a match spans at least `a@b.cd`, so the scan always advances
        EmailAtSound(s);
        Placeholder(EmailLabel) + ReplaceEmails(s[n..])
      case None => [s[0]] + ReplaceEmails(s[1..])
  }

  /** Text without an `@` has no e-mail address, and is left as it is. */
  lemma {:induction false} NoAtSignNoEmail(s: string)
    requires '@' !in s
    ensures ReplaceEmails(s) == s
    decreases |s|
  {
    if s != [] {
      assert '@' !in s[1..] by {
        assert forall k :: 0 <= k < |s[1..]| ==> s[1..][k] == s[k + 1];
      }
      NoAtSignNoEmail(s[1..]);
    }
  }

  // ---------------------------------------------------------------------------
  // What the two substitutions leave behind
  // ---------------------------------------------------------------------------

  /** A character the phone pattern can consume: a digit or a separator. */
  predicate PhoneChar(c: char) {
    IsDigit(c) || IsPhoneSep(c)
  }

  /** A character the e-mail pattern can consume: one of the local-part class, or `@`. */
  predicate EmailChar(c: char) {
    InClass(c, LocalPart) || c == '@'
  }

  /** A placeholder has no digit, no separator, no `@`; it opens with `[` and closes with `]`. */
  lemma PlaceholderChars(word: string)
    requires forall k :: 0 <= k < |word| ==> IsAsciiLetter(word[k])
    ensures var p := Placeholder(word);
      && p[0] == '[' && p[|p| - 1] == ']'
      && forall k :: 0 <= k < |p| ==> !PhoneChar(p[k]) && p[k] != '@'
  {
    var p := Placeholder(word);
    assert forall k :: 0 <= k < |p| ==> p[k] == '[' || p[k] == ']' || IsAsciiLetter(p[k]);
  }

  /**
   * The phone pattern looks no further than the first character it cannot
   * consume: text that agrees up to there has a match whenever `t` has one.
   */
  lemma PhoneTransfer(t: string, u: string, m: nat)
    requires m <= |t| && m <= |u| && t[..m] == u[..m]
    requires m == |t| || !PhoneChar(t[m])
    requires PhoneAt(t).Some?
    ensures PhoneAt(u).Some?
  {
    PhoneAtSpec(t);
    var sh :| PhoneShape(sh) && ShapeMatches(t, sh);
    ShapeChars(t, sh);
    assert ShapeLen(sh) <= m;
    assert forall k :: 0 <= k < m ==> u[k] == t[k] by {
      assert forall k :: 0 <= k < m ==> u[k] == u[..m][k] == t[..m][k] == t[k];
    }
    ShapeAgree(t, u, sh);
    PhoneAtSpec(u);
  }

  /** Everything a shape matches is digits and separators. */
  lemma ShapeChars(t: string, sh: Shape)
    requires ShapeMatches(t, sh)
    ensures ShapeLen(sh) <= |t|
    ensures forall k :: 0 <= k < ShapeLen(sh) ==> PhoneChar(t[k])
  {
    assert DigitsAt(t, 0, sh.first);
    assert DigitsAt(t, sh.first + SepWidth(sh.sep1), sh.second);
    assert DigitsAt(t, ShapeLen(sh) - 4, 4);
  }

  /** Whether a shape matches depends only on the characters it spans. */
  lemma ShapeAgree(t: string, u: string, sh: Shape)
    requires ShapeMatches(t, sh) && ShapeLen(sh) <= |u|
    requires forall k :: 0 <= k < ShapeLen(sh) ==> u[k] == t[k]
    ensures ShapeMatches(u, sh)
  {
    ShapeChars(t, sh);
  }

  /** The same for the e-mail pattern. */
  lemma EmailTransfer(t: string, u: string, m: nat)
    requires m <= |t| && m <= |u| && t[..m] == u[..m]
    requires m == |t| || !EmailChar(t[m])
    requires EmailAt(t).Some?
    ensures EmailAt(u).Some?
  {
    EmailAtSound(t);
    var n := EmailAt(t).value;
    var at, dot :| EmailSplit(t, n, at, dot);
    assert forall k :: 0 <= k < n ==> EmailChar(t[k]);
    assert n <= m;
    assert forall k :: 0 <= k < n ==> u[k] == t[k] by {
      assert forall k :: 0 <= k < m ==> u[k] == u[..m][k] == t[..m][k] == t[k];
    }
    assert EmailSplit(u, n, at, dot);
    EmailAtComplete(u, n, at, dot);
  }

  /** No e-mail match starts where an `@`-free stretch runs into a character outside the pattern. */
  lemma NoEmailBefore(t: string, j: nat)
    requires j < |t| && !EmailChar(t[j])
    requires forall i :: 0 <= i < j ==> t[i] != '@'
    ensures EmailAt(t).None?
  {
    if EmailAt(t).Some? {
      EmailAtSound(t);
    }
  }

  /** No match of either pattern starts inside a placeholder. */
  lemma NoMatchInPlaceholder(word: string, rest: string, k: nat)
    requires forall i :: 0 <= i < |word| ==> IsAsciiLetter(word[i])
    requires k < |Placeholder(word)|
    ensures PhoneAt((Placeholder(word) + rest)[k..]).None?
    ensures EmailAt((Placeholder(word) + rest)[k..]).None?
  {
    var p := Placeholder(word);
    var t := (p + rest)[k..];
    PlaceholderChars(word);
    assert forall i :: 0 <= i < |p| - k ==> t[i] == p[k + i];
    if PhoneAt(t).Some? {
      PhoneStartsWithDigits(t);
    }
    NoEmailBefore(t, |p| - 1 - k);
  }

  /**
   * Up to the first placeholder, the output of the phone substitution is the
   * text itself; without a placeholder it is the whole text.
   */
  lemma {:induction false} PhonesCopiedPrefix(s: string) returns (m: nat)
    ensures var r := ReplacePhones(s);
      && m <= |s| && m <= |r| && r[..m] == s[..m]
      && ((m == |s| && m == |r|) || (m < |r| && r[m] == '['))
    decreases |s|
  {
    var r := ReplacePhones(s);
    if s == [] {
      m := 0;
    } else if PhoneAt(s).Some? {
      m := 0;
    } else {
      var m' := PhonesCopiedPrefix(s[1..]);
      m := m' + 1;
      assert r == [s[0]] + ReplacePhones(s[1..]);
      assert r[..m] == [s[0]] + ReplacePhones(s[1..])[..m'];
      assert s[..m] == [s[0]] + s[1..][..m'];
    }
  }

  /** The same for the e-mail substitution. */
  lemma {:induction false} EmailsCopiedPrefix(s: string) returns (m: nat)
    ensures var r := ReplaceEmails(s);
      && m <= |s| && m <= |r| && r[..m] == s[..m]
      && ((m == |s| && m == |r|) || (m < |r| && r[m] == '['))
    decreases |s|
  {
    var r := ReplaceEmails(s);
    if s == [] {
      m := 0;
    } else if EmailAt(s).Some? {
      m := 0;
    } else {
      var m' := EmailsCopiedPrefix(s[1..]);
      m := m' + 1;
      assert r == [s[0]] + ReplaceEmails(s[1..]);
      assert r[..m] == [s[0]] + ReplaceEmails(s[1..])[..m'];
      assert s[..m] == [s[0]] + s[1..][..m'];
    }
  }

  /**
   * `re.sub` leaves no phone number behind: no match of the pattern starts
   * anywhere in its output.
   */
  lemma {:induction false} NoPhoneLeft(s: string)
    ensures forall k :: 0 <= k < |ReplacePhones(s)| ==> PhoneAt(ReplacePhones(s)[k..]).None?
    decreases |s|
  {
    var r := ReplacePhones(s);
    if s != [] {
      match PhoneAt(s)
      case Some(n) =>
        PhoneAtSpec(s);
        var p := Placeholder(PhoneLabel);
        var rest := ReplacePhones(s[n..]);
        assert r == p + rest;
        NoPhoneLeft(s[n..]);
        LabelsAreWords();
        forall k | 0 <= k < |r| ensures PhoneAt(r[k..]).None? {
          if k < |p| {
            NoMatchInPlaceholder(PhoneLabel, rest, k);
          } else {
            assert r[k..] == rest[k - |p|..];
          }
        }
      case None =>
        var rest := ReplacePhones(s[1..]);
        assert r == [s[0]] + rest;
        NoPhoneLeft(s[1..]);
        forall k | 0 <= k < |r| ensures PhoneAt(r[k..]).None? {
          if k == 0 {
            assert r[k..] == r;
            var m := PhonesCopiedPrefix(s);
            if m == |r| {
              assert r == r[..m] == s[..m] == s;
            } else if PhoneAt(r).Some? {
              PhoneTransfer(r, s, m);
            }
          } else {
            assert r[k..] == rest[k - 1..];
          }
        }
    }
  }

  /**
   * `re.sub` leaves no e-mail address behind: no match of the pattern starts
   * anywhere in its output.
   */
  lemma {:induction false} NoEmailLeft(s: string)
    ensures forall k :: 0 <= k < |ReplaceEmails(s)| ==> EmailAt(ReplaceEmails(s)[k..]).None?
    decreases |s|
  {
    var r := ReplaceEmails(s);
    if s != [] {
      match EmailAt(s)
      case Some(n) =>
        EmailAtSound(s);
        var p := Placeholder(EmailLabel);
        var rest := ReplaceEmails(s[n..]);
        assert r == p + rest;
        NoEmailLeft(s[n..]);
        LabelsAreWords();
        forall k | 0 <= k < |r| ensures EmailAt(r[k..]).None? {
          if k < |p| {
            NoMatchInPlaceholder(EmailLabel, rest, k);
          } else {
            assert r[k..] == rest[k - |p|..];
          }
        }
      case None =>
        var rest := ReplaceEmails(s[1..]);
        assert r == [s[0]] + rest;
        NoEmailLeft(s[1..]);
        forall k | 0 <= k < |r| ensures EmailAt(r[k..]).None? {
          if k == 0 {
            assert r[k..] == r;
            var m := EmailsCopiedPrefix(s);
            if m == |r| {
              assert r == r[..m] == s[..m] == s;
            } else if EmailAt(r).Some? {
              EmailTransfer(r, s, m);
            }
          } else {
            assert r[k..] == rest[k - 1..];
          }
        }
    }
  }

  /** A phone number at the start of the text is replaced by the placeholder. */
  lemma PhoneReplaced(s: string, sh: Shape)
    requires PhoneShape(sh) && ShapeMatches(s, sh)
    ensures Placeholder(PhoneLabel) <= ReplacePhones(s)
  {
    PhoneAtSpec(s);
  }

  /** An e-mail address at the start of the text is replaced by the placeholder. */
  lemma EmailReplaced(s: string, n: nat, at: nat, dot: nat)
    requires EmailSplit(s, n, at, dot)
    ensures Placeholder(EmailLabel) <= ReplaceEmails(s)
  {
    EmailAtComplete(s, n, at, dot);
  }

  // ---------------------------------------------------------------------------
  // Character deletions and `preprocess_text`
  // ---------------------------------------------------------------------------

  /**
   * `re.sub(r'[ㄱ-ㅎㅏ-ㅣ]{1,}', '', text)`: deleting every maximal run of jamo
   * deletes every jamo.
   */
  function RemoveJamo(s: string): string
    decreases |s|
  {
    if s == [] then []
    else if IsJamo(s[0]) then RemoveJamo(s[1..])
    else [s[0]] + RemoveJamo(s[1..])
  }

  /** The jamo deletion keeps exactly the characters that are not jamo. */
  lemma {:induction false} RemoveJamoSpec(s: string)
    ensures forall c :: c in RemoveJamo(s) <==> c in s && !IsJamo(c)
    decreases |s|
  {
    if s != [] {
      RemoveJamoSpec(s[1..]);
      assert forall c :: c in s <==> c == s[0] || c in s[1..];
    }
  }

  /** `re.sub(r'[^\w\s,.!?]', '', text)`: every character outside the allowed set is deleted. */
  function KeepAllowed(s: string): string
    decreases |s|
  {
    if s == [] then []
    else if Allowed(s[0]) then [s[0]] + KeepAllowed(s[1..])
    else KeepAllowed(s[1..])
  }

  /** The final deletion keeps exactly the allowed characters. */
  lemma {:induction false} KeepAllowedSpec(s: string)
    ensures forall c :: c in KeepAllowed(s) <==> c in s && Allowed(c)
    decreases |s|
  {
    if s != [] {
      KeepAllowedSpec(s[1..]);
      assert forall c :: c in s <==> c == s[0] || c in s[1..];
    }
  }

  /** `preprocess_text`. */
  function Preprocess(text: string): string {
    if Contains(text, "유로") && Contains(text, "환전") then ""
    else if Contains(text, "http://") || Contains(text, "https://") then ""
    else Strip(KeepAllowed(RemoveJamo(ReplaceEmails(ReplacePhones(text)))))
  }

  /**
   * A euro-exchange notice or a text with a link cleans to nothing; any other
   * result has no surrounding whitespace and holds only allowed characters, and
   * no jamo.
   */
  lemma PreprocessSpec(text: string)
    ensures Contains(text, "유로") && Contains(text, "환전") ==> Preprocess(text) == ""
    ensures Contains(text, "http://") || Contains(text, "https://") ==> Preprocess(text) == ""
    ensures var r := Preprocess(text);
      r == [] || (!IsSpace(r[0]) && !IsSpace(r[|r| - 1]))
    ensures forall c :: c in Preprocess(text) ==> Allowed(c) && !IsJamo(c)
  {
    var emails := ReplaceEmails(ReplacePhones(text));
    RemoveJamoSpec(emails);
    KeepAllowedSpec(RemoveJamo(emails));
    StripSpec(KeepAllowed(RemoveJamo(emails)));
  }

  /** The final deletion works character by character, so it splits over a concatenation. */
  lemma {:induction false} KeepAllowedAppend(a: string, b: string)
    ensures KeepAllowed(a + b) == KeepAllowed(a) + KeepAllowed(b)
    decreases |a|
  {
    if a == [] {
      AppendEmpty(b);
      AppendEmpty(KeepAllowed(b));
    } else {
      assert (a + b)[0] == a[0];
      assert (a + b)[1..] == a[1..] + b;
      KeepAllowedAppend(a[1..], b);
      if Allowed(a[0]) {
        AppendAssoc([a[0]], KeepAllowed(a[1..]), KeepAllowed(b));
      }
    }
  }

  /** Text made of allowed characters only is left as it is by the final deletion. */
  lemma {:induction false} KeepAllowedUnchanged(s: string)
    requires forall k :: 0 <= k < |s| ==> Allowed(s[k])
    ensures KeepAllowed(s) == s
    decreases |s|
  {
    if s != [] {
      KeepAllowedUnchanged(s[1..]);
    }
  }

  /** Text without jamo is left as it is by the jamo deletion. */
  lemma {:induction false} RemoveJamoUnchanged(s: string)
    requires forall k :: 0 <= k < |s| ==> !IsJamo(s[k])
    ensures RemoveJamo(s) == s
    decreases |s|
  {
    if s != [] {
      RemoveJamoUnchanged(s[1..]);
    }
  }

  /** The final deletion drops the brackets around a text. */
  lemma BracketsDropped(t: string)
    ensures KeepAllowed("[" + t + "]") == KeepAllowed(t)
  {
    var s := "[" + t + "]";
    assert s[1..] == t + "]";
    KeepAllowedAppend(t, "]");
    assert KeepAllowed("]") == [];
    assert KeepAllowed(t) + [] == KeepAllowed(t);
  }

  /** A placeholder loses its brackets to the final deletion: `[PHONE]` ends as `PHONE`. */
  lemma PlaceholderLosesBrackets(word: string)
    requires forall k :: 0 <= k < |word| ==> IsAsciiLetter(word[k])
    ensures KeepAllowed("[" + word + "]") == word
  {
    BracketsDropped(word);
    KeepAllowedUnchanged(word);
  }

  /** `sub` cannot occur in a text that lacks its first character. */
  lemma NotContainsFirst(s: string, sub: string)
    requires sub != [] && sub[0] !in s
    ensures !Contains(s, sub)
  {
    forall k: nat ensures !OccursAt(s, sub, k) {
      if k + |sub| <= |s| {
        assert s[k..k + |sub|][0] == s[k];
      }
    }
    ContainsIff(s, sub);
  }

  /** A substitution at the start of the text, and the scan goes on after the match. */
  lemma PhoneAtStart(s: string, n: nat)
    requires PhoneAt(s) == Some(n)
    ensures ReplacePhones(s) == Placeholder(PhoneLabel) + ReplacePhones(s[n..])
  {
  }

  /** `ddd-dddd-dddd` is matched whole, by the first shape tried. */
  lemma DashedNumber(s: string)
    requires ShapeMatches(s, Shape(3, true, 4, true))
    ensures PhoneAt(s) == Some(13)
  {
    assert TrySep2(s, 3, true, 4) == Some(13);
    assert TrySecond(s, 3, true) == Some(13);
    assert TrySep1(s, 3) == Some(13);
  }

  /**
   * Ten bare digits are matched whole: three digits, no separator, three digits
   * and four digits, after the four-digit middle group fails.
   */
  lemma TenDigits(s: string)
    requires |s| == 10 && forall k :: 0 <= k < 10 ==> IsDigit(s[k])
    ensures PhoneAt(s) == Some(10)
  {
    assert !IsPhoneSep(s[3]) && !IsPhoneSep(s[6]) && !IsPhoneSep(s[7]);
    assert TrySecond(s, 3, true) == None;
    assert TrySep2(s, 3, false, 4) == None;
    assert ShapeMatches(s, Shape(3, false, 3, false));
    assert TrySep2(s, 3, false, 3) == Some(10);
    assert TrySep1(s, 3) == Some(10);
  }

  /** Text without `유` and `h` passes both rejections and goes through the substitutions, deletions and strip. */
  lemma Accepted(text: string)
    requires '유' !in text && 'h' !in text
    ensures Preprocess(text) == Strip(KeepAllowed(RemoveJamo(ReplaceEmails(ReplacePhones(text)))))
  {
    NotContainsFirst(text, "유로");
    NotContainsFirst(text, "http://");
    NotContainsFirst(text, "https://");
  }

  /** Both placeholder words are made of ASCII letters. */
  lemma LabelsAreWords()
    ensures forall k :: 0 <= k < |PhoneLabel| ==> IsAsciiLetter(PhoneLabel[k])
    ensures forall k :: 0 <= k < |EmailLabel| ==> IsAsciiLetter(EmailLabel[k])
  {
  }

  /** A placeholder on its own goes through the rest of the cleaning as its bare word. */
  lemma PlaceholderCleaned(word: string)
    requires word != [] && forall k :: 0 <= k < |word| ==> IsAsciiLetter(word[k])
    ensures Strip(KeepAllowed(RemoveJamo(ReplaceEmails(Placeholder(word))))) == word
  {
    var p := Placeholder(word);
    assert forall k :: 0 <= k < |p| ==> p[k] == '[' || p[k] == ']' || IsAsciiLetter(p[k]);
    NoAtSignNoEmail(p);
    RemoveJamoUnchanged(p);
    PlaceholderLosesBrackets(word);
    StripFixed(word);
  }

  /** Where no match begins, the character is copied and the scan moves one step. */
  lemma NoPhoneHere(s: string)
    requires s != [] && !PhoneStart(s, 0)
    ensures ReplacePhones(s) == [s[0]] + ReplacePhones(s[1..])
  {
    if PhoneAt(s).Some? {
      PhoneStartsWithDigits(s);
    }
  }

  /** Cleaning of accepted text, given the outcome of the phone substitution and of the steps after it. */
  lemma CleanedVia(text: string, phones: string, out: string)
    requires '유' !in text && 'h' !in text
    requires ReplacePhones(text) == phones
    requires Strip(KeepAllowed(RemoveJamo(ReplaceEmails(phones)))) == out
    ensures Preprocess(text) == out
  {
    Accepted(text);
  }

  /** A match that spans the whole text turns it into the phone placeholder. */
  lemma MaskedWhole(s: string, n: nat)
    requires PhoneAt(s) == Some(n) && n == |s|
    ensures ReplacePhones(s) == Placeholder(PhoneLabel)
  {
    PhoneAtStart(s, n);
    assert s[n..] == [];
    assert Placeholder(PhoneLabel) + [] == Placeholder(PhoneLabel);
  }

  /** The phone placeholder goes through the rest of the cleaning as `PHONE`. */
  lemma PhoneLabelCleaned()
    ensures Strip(KeepAllowed(RemoveJamo(ReplaceEmails(Placeholder(PhoneLabel))))) == PhoneLabel
  {
    LabelsAreWords();
    PlaceholderCleaned(PhoneLabel);
  }

  /** A number of the shape `ddd-dddd-dddd` cleans to `PHONE`, without brackets. */
  lemma DashedNumberCleaned(num: string)
    requires |num| == 13 && ShapeMatches(num, Shape(3, true, 4, true))
    ensures Preprocess(num) == PhoneLabel
  {
    forall k | 0 <= k < 13 ensures IsDigit(num[k]) || IsPhoneSep(num[k]) {
      if k != 3 && k != 8 {
        assert DigitsAt(num, 0, 3) && DigitsAt(num, 4, 4) && DigitsAt(num, 9, 4);
      }
    }
    assert '유' !in num && 'h' !in num;
    DashedNumber(num);
    MaskedWhole(num, 13);
    PhoneLabelCleaned();
    CleanedVia(num, Placeholder(PhoneLabel), PhoneLabel);
  }

  /** Digits written in pairs separated by slashes: `01/23/45/67/89`. */
  function SlashPairs(d: string): (r: string)
    ensures forall c :: c in r ==> c in d || c == '/'
    decreases |d|
  {
    if |d| <= 2 then d else d[..2] + "/" + SlashPairs(d[2..])
  }

  /** A pair of digits and a slash: no match begins at any of the three. */
  lemma SlashedPairCopied(a: char, b: char, rest: string)
    ensures ReplacePhones([a, b, '/'] + rest) == [a, b, '/'] + ReplacePhones(rest)
  {
    var s2 := ['/'] + rest;
    var s1 := [b] + s2;
    var s := [a] + s1;
    assert s == [a, b, '/'] + rest;
    assert s2[1..] == rest && s1[1..] == s2 && s[1..] == s1;
    NoPhoneHere(s2);
    NoPhoneHere(s1);
    NoPhoneHere(s);
    ConsThree(a, b, '/', ReplacePhones(rest));
  }

  /** Text shorter than nine characters holds no match. */
  lemma ShortTextCopied(s: string)
    requires |s| < 9
    ensures ReplacePhones(s) == s
    decreases |s|
  {
    if s != [] {
      ShortTextCopied(s[1..]);
    }
  }

  /** The phone substitution finds nothing in digit pairs separated by slashes. */
  lemma {:induction false} SlashPairsNoPhone(d: string)
    ensures ReplacePhones(SlashPairs(d)) == SlashPairs(d)
    decreases |d|
  {
    if |d| <= 2 {
      ShortTextCopied(d);
    } else {
      var rest := SlashPairs(d[2..]);
      assert SlashPairs(d) == [d[0], d[1], '/'] + rest;
      SlashedPairCopied(d[0], d[1], rest);
      SlashPairsNoPhone(d[2..]);
    }
  }

  /** The final deletion removes the slashes and leaves the digits. */
  lemma {:induction false} SlashPairsKept(d: string)
    requires forall k :: 0 <= k < |d| ==> IsDigit(d[k])
    ensures KeepAllowed(SlashPairs(d)) == d
    decreases |d|
  {
    if |d| <= 2 {
      KeepAllowedUnchanged(d);
    } else {
      var pair, rest := d[..2], SlashPairs(d[2..]);
      KeepAllowedAppend(pair + "/", rest);
      KeepAllowedAppend(pair, "/");
      KeepAllowedUnchanged(pair);
      assert KeepAllowed("/") == [];
      SlashPairsKept(d[2..]);
      assert pair + [] + d[2..] == d;
    }
  }

  /** Digits and slashes hold no `@` and no jamo, so the e-mail substitution and the jamo deletion keep them. */
  lemma DigitsAndSlashesKept(s: string)
    requires forall c :: c in s ==> IsDigit(c) || c == '/'
    ensures RemoveJamo(ReplaceEmails(s)) == s
  {
    assert '@' !in s;
    NoAtSignNoEmail(s);
    assert forall k :: 0 <= k < |s| ==> s[k] in s;
    RemoveJamoUnchanged(s);
  }

  /** The steps after the phone substitution turn slashed pairs of digits into the bare digits. */
  lemma SlashPairsAfterPhones(d: string)
    requires forall k :: 0 <= k < |d| ==> IsDigit(d[k])
    ensures Strip(KeepAllowed(RemoveJamo(ReplaceEmails(SlashPairs(d))))) == d
  {
    assert forall c :: c in d ==> IsDigit(c);
    DigitsAndSlashesKept(SlashPairs(d));
    SlashPairsKept(d);
    DigitsStripped(d);
  }

  /** A string of digits has no surrounding whitespace. */
  lemma DigitsStripped(d: string)
    requires forall k :: 0 <= k < |d| ==> IsDigit(d[k])
    ensures Strip(d) == d
  {
    if d != [] {
      assert IsDigit(d[0]) && IsDigit(d[|d| - 1]);
    }
    StripFixed(d);
  }

  /** The first cleaning of slashed pairs of digits leaves the bare digits. */
  lemma SlashPairsCleaned(d: string)
    requires forall k :: 0 <= k < |d| ==> IsDigit(d[k])
    ensures Preprocess(SlashPairs(d)) == d
  {
    var s := SlashPairs(d);
    assert '유' !in s && 'h' !in s;
    SlashPairsNoPhone(d);
    SlashPairsAfterPhones(d);
    CleanedVia(s, s, d);
  }

  /** Ten bare digits clean to the phone placeholder's word. */
  lemma TenDigitsCleaned(d: string)
    requires |d| == 10 && forall k :: 0 <= k < 10 ==> IsDigit(d[k])
    ensures Preprocess(d) == PhoneLabel
  {
    assert '유' !in d && 'h' !in d;
    TenDigits(d);
    MaskedWhole(d, 10);
    PhoneLabelCleaned();
    CleanedVia(d, Placeholder(PhoneLabel), PhoneLabel);
  }

  /**
   * Cleaning is not idempotent: for any ten digits written in slashed pairs,
   * the first cleaning deletes the slashes only after the phone substitution
   * has run, and leaves the bare digits, which the second cleaning masks.
   */
  lemma CleaningNotIdempotent(d: string)
    requires |d| == 10 && forall k :: 0 <= k < 10 ==> IsDigit(d[k])
    ensures Preprocess(SlashPairs(d)) == d
    ensures Preprocess(Preprocess(SlashPairs(d))) == PhoneLabel != d
  {
    SlashPairsCleaned(d);
    TenDigitsCleaned(d);
  }

  // ---------------------------------------------------------------------------
  // Records: the join and drop decision of `process_jsonl`
  // ---------------------------------------------------------------------------

  /** One input record: the `user` and `assistant` lists, either of which may be missing. */
  datatype Record = Record(user: Option<seq<string>>, assistant: Option<seq<string>>)

  /** `data.get(key, [])`. */
  function Listed(field: Option<seq<string>>): seq<string> {
    match field
    case None => []
    case Some(msgs) => msgs
  }

  /** `f` applied to each string, in order. */
  function Map(f: string -> string, xs: seq<string>): (r: seq<string>)
    ensures |r| == |xs|
  {
    seq(|xs|, k requires 0 <= k < |xs| => f(xs[k]))
  }

  /** Mapping a concatenation maps each part. */
  lemma MapAppend(f: string -> string, a: seq<string>, b: seq<string>)
    ensures Map(f, a + b) == Map(f, a) + Map(f, b)
  {
    assert forall k :: 0 <= k < |a + b| ==> Map(f, a + b)[k] == (Map(f, a) + Map(f, b))[k];
  }

  /** The non-empty strings of `xs`, in order. */
  function NonEmpty(xs: seq<string>): (r: seq<string>)
    ensures forall k :: 0 <= k < |r| ==> r[k] != ""
    decreases |xs|
  {
    if xs == [] then []
    else (if xs[0] != "" then [xs[0]] else []) + NonEmpty(xs[1..])
  }

  /** Filtering a concatenation filters each part, in order. */
  lemma {:induction false} NonEmptyAppend(a: seq<string>, b: seq<string>)
    ensures NonEmpty(a + b) == NonEmpty(a) + NonEmpty(b)
    decreases |a|
  {
    if a == [] {
      AppendEmpty(b);
      AppendEmpty(NonEmpty(b));
    } else {
      assert (a + b)[0] == a[0];
      assert (a + b)[1..] == a[1..] + b;
      NonEmptyAppend(a[1..], b);
      AppendAssoc(if a[0] != "" then [a[0]] else [], NonEmpty(a[1..]), NonEmpty(b));
    }
  }

  /** Nothing survives the filter exactly when every string is empty. */
  lemma {:induction false} NonEmptyIff(xs: seq<string>)
    ensures NonEmpty(xs) == [] <==> forall k :: 0 <= k < |xs| ==> xs[k] == ""
    decreases |xs|
  {
    if xs != [] {
      NonEmptyIff(xs[1..]);
      assert forall k :: 1 <= k < |xs| ==> xs[k] == xs[1..][k - 1];
    }
  }

  /** `[preprocess_text(m) for m in msgs if preprocess_text(m)]`. */
  function Cleaned(msgs: seq<string>): seq<string> {
    NonEmpty(Map(Preprocess, msgs))
  }

  /** Cleaning a concatenation cleans each part, in order. */
  lemma CleanedAppend(a: seq<string>, b: seq<string>)
    ensures Cleaned(a + b) == Cleaned(a) + Cleaned(b)
  {
    MapAppend(Preprocess, a, b);
    NonEmptyAppend(Map(Preprocess, a), Map(Preprocess, b));
  }

  /** Nothing survives cleaning exactly when every message cleans to the empty string. */
  lemma CleanedEmptyIff(msgs: seq<string>)
    ensures Cleaned(msgs) == [] <==> forall k :: 0 <= k < |msgs| ==> Preprocess(msgs[k]) == ""
  {
    var cleanings := Map(Preprocess, msgs);
    NonEmptyIff(cleanings);
    forall k | 0 <= k < |msgs| ensures cleanings[k] == Preprocess(msgs[k]) {
    }
  }

  /** `" ".join(...)` of the cleaned messages. */
  function CleanJoin(msgs: seq<string>): string {
    Join(" ", Cleaned(msgs))
  }

  /** A side's joined text is empty exactly when every one of its messages cleans to nothing. */
  lemma CleanJoinEmptyIff(msgs: seq<string>)
    ensures CleanJoin(msgs) == "" <==> forall k :: 0 <= k < |msgs| ==> Preprocess(msgs[k]) == ""
  {
    JoinEmptyIff(" ", Cleaned(msgs));
    CleanedEmptyIff(msgs);
  }

  /** The author of an output message. */
  datatype Role = User | Assistant

  /** One entry of the `messages` list of an output record. */
  datatype ChatEntry = ChatEntry(role: Role, content: string)

  /** The output record for an input record, or `None` when the record is skipped. */
  function FormatRecord(rec: Record): Option<seq<ChatEntry>> {
    var user := CleanJoin(Listed(rec.user));
    var assistant := CleanJoin(Listed(rec.assistant));
    if user == "" || assistant == "" then None
    else Some([ChatEntry(User, user), ChatEntry(Assistant, assistant)])
  }

  /**
   * A record is skipped exactly when all of its user messages or all of its
   * assistant messages clean to nothing; otherwise it becomes one user entry and
   * one assistant entry, both non-empty, in that order.
   */
  lemma FormatRecordSpec(rec: Record)
    ensures var user, assistant := Listed(rec.user), Listed(rec.assistant);
      FormatRecord(rec).None? <==>
        || (forall k :: 0 <= k < |user| ==> Preprocess(user[k]) == "")
        || (forall k :: 0 <= k < |assistant| ==> Preprocess(assistant[k]) == "")
    ensures FormatRecord(rec).Some? ==>
      var entries := FormatRecord(rec).value;
      && |entries| == 2
      && entries[0].role == User && entries[1].role == Assistant
      && entries[0].content != "" && entries[1].content != ""
  {
    CleanJoinEmptyIff(Listed(rec.user));
    CleanJoinEmptyIff(Listed(rec.assistant));
  }

  /** A record with a missing side is always skipped. */
  lemma MissingSideSkipped(rec: Record)
    requires rec.user.None? || rec.assistant.None?
    ensures FormatRecord(rec).None?
  {
    FormatRecordSpec(rec);
  }

  /** The output records for a sequence of input records, in input order. */
  function Formatted(records: seq<Record>): seq<seq<ChatEntry>>
    decreases |records|
  {
    if records == [] then []
    else
      var n := |records| - 1;
      match FormatRecord(records[n])
      case None => Formatted(records[..n])
      case Some(entries) => Formatted(records[..n]) + [entries]
  }

  /** Every output record holds a non-empty user entry then a non-empty assistant entry. */
  lemma {:induction false} FormattedShape(records: seq<Record>)
    ensures |Formatted(records)| <= |records|
    ensures forall x :: 0 <= x < |Formatted(records)| ==>
      var entries := Formatted(records)[x];
      && |entries| == 2
      && entries[0].role == User && entries[1].role == Assistant
      && entries[0].content != "" && entries[1].content != ""
    decreases |records|
  {
    if records != [] {
      var n := |records| - 1;
      FormattedShape(records[..n]);
      FormatRecordSpec(records[n]);
    }
  }

  /** The loop of `process_jsonl` over the input records, writing one output record per kept input. */
  method ProcessRecords(records: seq<Record>) returns (out: seq<seq<ChatEntry>>)
    ensures out == Formatted(records)
  {
    out := [];
    for i := 0 to |records|
      invariant out == Formatted(records[..i])
    {
      assert records[..i + 1][..i] == records[..i];
      var user := CleanJoin(Listed(records[i].user));
      var assistant := CleanJoin(Listed(records[i].assistant));
      if user == "" || assistant == "" {
        continue;
      }
      out := out + [[ChatEntry(User, user), ChatEntry(Assistant, assistant)]];
    }
    assert records[..|records|] == records;
  }
}
