// gtest-port.cc: the simple regular expressions of the portable death tests. ValidateRegex accepts
// exactly a small grammar, and the backtracking matcher decides the language of such a regex.
//
// Strings stand for C strings, so they hold no NUL; reading one past the end gives NUL.
module SimpleRegex {
  import opened Common

  const NUL: char := '\0'

  // ---- characters ----

  predicate IsInSet(ch: char, set_: string) {
    ch != NUL && ch in set_
  }

  predicate IsAsciiDigit(ch: char) {
    '0' <= ch <= '9'
  }

  predicate IsAsciiPunct(ch: char) {
    IsInSet(ch, "^-!\"#$%&'()*+,./:;<=>?@[\\]_`{|}~")
  }

  predicate IsRepeat(ch: char) {
    IsInSet(ch, "?*+")
  }

  predicate IsAsciiWhiteSpace(ch: char) {
    IsInSet(ch, [' ', '\U{0C}', '\n', '\r', '\t', '\U{0B}'])
  }

  predicate IsAsciiWordChar(ch: char) {
    'a' <= ch <= 'z' || 'A' <= ch <= 'Z' || '0' <= ch <= '9' || ch == '_'
  }

  predicate IsValidEscape(ch: char) {
    IsAsciiPunct(ch) || IsInSet(ch, "dDfnrsStvwW")
  }

  predicate AtomMatchesChar(escaped: bool, patternChar: char, ch: char) {
    if escaped then
      match patternChar
      case 'd' => IsAsciiDigit(ch)
      case 'D' => !IsAsciiDigit(ch)
      case 'f' => ch == '\U{0C}'
      case 'n' => ch == '\n'
      case 'r' => ch == '\r'
      case 's' => IsAsciiWhiteSpace(ch)
      case 'S' => !IsAsciiWhiteSpace(ch)
      case 't' => ch == '\t'
      case 'v' => ch == '\U{0B}'
      case 'w' => IsAsciiWordChar(ch)
      case 'W' => !IsAsciiWordChar(ch)
      case _ => IsAsciiPunct(patternChar) && patternChar == ch
    else
      (patternChar == '.' && ch != '\n') || patternChar == ch
  }

  /** The characters that an item cannot show unescaped, sorted by the role they have. */
  lemma SpecialChars(c: char)
    ensures IsRepeat(c) <==> c == '?' || c == '*' || c == '+'
    ensures IsInSet(c, "^$?*+") <==> c == '^' || c == '$' || IsRepeat(c)
    ensures IsInSet(c, "\\^$()[]{}|?*+") <==> c == '\\' || c == '^' || c == '$' || IsRepeat(c) || IsInSet(c, "()[]{}|")
    ensures c == '\\' || c == '^' || c == '$' || IsRepeat(c) ==> !IsInSet(c, "()[]{}|")
  {
    assert "?*+"[0] == '?' && "?*+"[1] == '*' && "?*+"[2] == '+';
    assert "^$?*+" == "^$" + "?*+" && "^$"[0] == '^' && "^$"[1] == '$';
    assert "\\^$()[]{}|?*+" == "\\^$" + "()[]{}|" + "?*+";
    assert "\\^$"[0] == '\\' && "\\^$"[1] == '^' && "\\^$"[2] == '$';
  }

  /** The character at i, or the terminating NUL. */
  function At(s: string, i: nat): char {
    if i < |s| then s[i] else NUL
  }

  // ---- the grammar and its languages ----

  datatype Repeat = Once | Optional | Star | Plus

  datatype Item = Item(escaped: bool, c: char, repeat: Repeat)

  /** ^? item* $? */
  datatype Regex = Regex(anchored: bool, items: seq<Item>, dollar: bool)

  ghost predicate WellFormedAtom(escaped: bool, c: char) {
    if escaped then IsValidEscape(c) else c != NUL && !IsInSet(c, "\\^$()[]{}|?*+")
  }

  ghost predicate WellFormed(item: Item) {
    WellFormedAtom(item.escaped, item.c)
  }

  ghost predicate AllWellFormed(items: seq<Item>) {
    forall i :: 0 <= i < |items| ==> WellFormed(items[i])
  }

  function RepeatText(r: Repeat): string {
    match r
    case Once => ""
    case Optional => "?"
    case Star => "*"
    case Plus => "+"
  }

  function ItemText(item: Item): string {
    (if item.escaped then "\\" else "") + [item.c] + RepeatText(item.repeat)
  }

  function Text(items: seq<Item>, dollar: bool): string {
    if items == [] then (if dollar then "$" else "")
    else ItemText(items[0]) + Text(items[1..], dollar)
  }

  function RegexText(r: Regex): string {
    (if r.anchored then "^" else "") + Text(r.items, r.dollar)
  }

  ghost predicate InGrammar(regex: string) {
    exists r: Regex :: AllWellFormed(r.items) && RegexText(r) == regex
  }

  ghost predicate Allows(r: Repeat, k: nat) {
    match r
    case Once => k == 1
    case Optional => k <= 1
    case Star => true
    case Plus => k >= 1
  }

  ghost predicate AllMatch(item: Item, w: string) {
    forall i :: 0 <= i < |w| ==> AtomMatchesChar(item.escaped, item.c, w[i])
  }

  /** The words of a sequence of items: the concatenations of allowed repetitions. */
  ghost predicate InLanguage(items: seq<Item>, w: string) {
    if items == [] then w == ""
    else exists k :: 0 <= k <= |w| && Allows(items[0].repeat, k) && AllMatch(items[0], w[..k])
                     && InLanguage(items[1..], w[k..])
  }

  /** Some prefix is a word, and it is all of s if the regex ends in '$'. */
  ghost predicate MatchesHead(items: seq<Item>, dollar: bool, s: string) {
    exists k :: 0 <= k <= |s| && InLanguage(items, s[..k]) && (dollar ==> k == |s|)
  }

  ghost predicate MatchesSubstring(r: Regex, s: string) {
    if r.anchored then MatchesHead(r.items, r.dollar, s)
    else exists j :: 0 <= j <= |s| && MatchesHead(r.items, r.dollar, s[j..])
  }

  // ---- what the atoms stand for, character by character ----

  lemma OneAtom(escaped: bool, c: char, w: string)
    ensures InLanguage([Item(escaped, c, Once)], w) <==> |w| == 1 && AtomMatchesChar(escaped, c, w[0])
  {
    var items := [Item(escaped, c, Once)];
    hide AtomMatchesChar;
    if |w| == 1 {
      assert w[..1] == w && w[1..] == "";
      assert InLanguage(items[1..], w[1..]);
    }
  }

  ghost predicate IsDigitCode(n: int) {
    0x30 <= n <= 0x39
  }

  ghost predicate IsWordCode(n: int) {
    0x30 <= n <= 0x39 || 0x41 <= n <= 0x5A || n == 0x5F || 0x61 <= n <= 0x7A
  }

  /** Tab, line feed, vertical tab, form feed, carriage return, and the space. */
  ghost predicate IsSpaceCode(n: int) {
    0x09 <= n <= 0x0D || n == 0x20
  }

  ghost predicate IsPunctuationCode(n: int) {
    0x21 <= n <= 0x2F || 0x3A <= n <= 0x40 || 0x5B <= n <= 0x60 || 0x7B <= n <= 0x7E
  }

  lemma SpaceCodes(ch: char)
    ensures IsAsciiWhiteSpace(ch) <==> IsSpaceCode(ch as int)
  {
    var s := [' ', '\U{0C}', '\n', '\r', '\t', '\U{0B}'];
    assert s[0] == ' ' && s[1] == '\U{0C}' && s[2] == '\n' && s[3] == '\r' && s[4] == '\t' && s[5] == '\U{0B}';
  }

  lemma PunctuationUpTo26(ch: char)
    ensures ch in "^-!\"#$%&" <==> ch == '^' || ch == '-' || 0x21 <= ch as int <= 0x26
  {
    var s := "^-!\"#$%&";
    assert s[0] == '^' && s[1] == '-' && s[2] == '!' && s[3] == '\"' && s[4] == '#' && s[5] == '$' && s[6] == '%' && s[7] == '&';
  }

  lemma PunctuationUpTo2F(ch: char)
    ensures ch in "'()*+,./" <==> 0x27 <= ch as int <= 0x2F && ch != '-'
  {
    var s := "'()*+,./";
    assert s[0] == '\'' && s[1] == '(' && s[2] == ')' && s[3] == '*' && s[4] == '+' && s[5] == ',' && s[6] == '.' && s[7] == '/';
  }

  lemma PunctuationUpTo5B(ch: char)
    ensures ch in ":;<=>?@[" <==> 0x3A <= ch as int <= 0x40 || ch as int == 0x5B
  {
    var s := ":;<=>?@[";
    assert s[0] == ':' && s[1] == ';' && s[2] == '<' && s[3] == '=' && s[4] == '>' && s[5] == '?' && s[6] == '@' && s[7] == '[';
  }

  lemma PunctuationUpTo7E(ch: char)
    ensures ch in "\\]_`{|}~" <==> (0x5C <= ch as int <= 0x60 && ch != '^') || 0x7B <= ch as int <= 0x7E
  {
    var s := "\\]_`{|}~";
    assert s[0] == '\\' && s[1] == ']' && s[2] == '_' && s[3] == '`' && s[4] == '{' && s[5] == '|' && s[6] == '}' && s[7] == '~';
  }

  lemma PunctuationCodes(ch: char)
    ensures IsAsciiPunct(ch) <==> IsPunctuationCode(ch as int)
  {
    assert "^-!\"#$%&'()*+,./:;<=>?@[\\]_`{|}~" == "^-!\"#$%&" + "'()*+,./" + ":;<=>?@[" + "\\]_`{|}~";
    PunctuationUpTo26(ch);
    PunctuationUpTo2F(ch);
    PunctuationUpTo5B(ch);
    PunctuationUpTo7E(ch);
  }

  ghost predicate IsEscapeLetter(c: char) {
    c == 'd' || c == 'D' || c == 'f' || c == 'n' || c == 'r' || c == 's' || c == 'S' || c == 't' || c == 'v' || c == 'w' || c == 'W'
  }

  lemma EscapeLetters(c: char)
    ensures IsInSet(c, "dDfnrsStvwW") <==> IsEscapeLetter(c)
  {
    var s := "dDfnrsStvwW";
    assert s == "dDfnr" + "sStvwW";
    assert s[0] == 'd' && s[1] == 'D' && s[2] == 'f' && s[3] == 'n' && s[4] == 'r' && s[5] == 's';
    assert s[6] == 'S' && s[7] == 't' && s[8] == 'v' && s[9] == 'w' && s[10] == 'W';
  }

  lemma Unsupported(c: char)
    ensures IsInSet(c, "()[]{}|") <==> c == '(' || c == ')' || c == '[' || c == ']' || c == '{' || c == '}' || c == '|'
  {
    var s := "()[]{}|";
    assert s[0] == '(' && s[1] == ')' && s[2] == '[' && s[3] == ']' && s[4] == '{' && s[5] == '}' && s[6] == '|';
  }

  /** The atoms of the grammar: punctuation or one of eleven letters after a backslash, and any character without a role by itself. */
  lemma AtomChars(c: char)
    ensures WellFormedAtom(true, c) <==> IsPunctuationCode(c as int) || IsEscapeLetter(c)
    ensures WellFormedAtom(false, c) <==>
            && c != NUL && c != '\\' && c != '^' && c != '$' && c != '?' && c != '*' && c != '+'
            && c != '(' && c != ')' && c != '[' && c != ']' && c != '{' && c != '}' && c != '|'
  {
    PunctuationCodes(c);
    EscapeLetters(c);
    Unsupported(c);
    SpecialChars(c);
    hide IsInSet, IsAsciiPunct, IsRepeat;
  }

  /** Digits, and everything else. */
  lemma DigitWords(w: string)
    ensures InLanguage([Item(true, 'd', Once)], w) <==> |w| == 1 && IsDigitCode(w[0] as int)
    ensures InLanguage([Item(true, 'D', Once)], w) <==> |w| == 1 && !IsDigitCode(w[0] as int)
  {
    OneAtom(true, 'd', w);
    OneAtom(true, 'D', w);
    hide InLanguage;
  }

  /** Letters, digits and the underscore, and everything else. */
  lemma WordCharWords(w: string)
    ensures InLanguage([Item(true, 'w', Once)], w) <==> |w| == 1 && IsWordCode(w[0] as int)
    ensures InLanguage([Item(true, 'W', Once)], w) <==> |w| == 1 && !IsWordCode(w[0] as int)
  {
    OneAtom(true, 'w', w);
    OneAtom(true, 'W', w);
    hide InLanguage;
  }

  /** White space, and everything else. */
  lemma SpaceWords(w: string)
    ensures InLanguage([Item(true, 's', Once)], w) <==> |w| == 1 && IsSpaceCode(w[0] as int)
    ensures InLanguage([Item(true, 'S', Once)], w) <==> |w| == 1 && !IsSpaceCode(w[0] as int)
  {
    OneAtom(true, 's', w);
    OneAtom(true, 'S', w);
    hide InLanguage, IsAsciiWhiteSpace, IsSpaceCode;
    if |w| == 1 {
      SpaceCodes(w[0]);
    }
  }

  /** The control characters: form feed, line feed, carriage return, tab, vertical tab. */
  lemma ControlWords(w: string)
    ensures InLanguage([Item(true, 'f', Once)], w) <==> |w| == 1 && w[0] as int == 0x0C
    ensures InLanguage([Item(true, 'n', Once)], w) <==> |w| == 1 && w[0] as int == 0x0A
    ensures InLanguage([Item(true, 'r', Once)], w) <==> |w| == 1 && w[0] as int == 0x0D
    ensures InLanguage([Item(true, 't', Once)], w) <==> |w| == 1 && w[0] as int == 0x09
    ensures InLanguage([Item(true, 'v', Once)], w) <==> |w| == 1 && w[0] as int == 0x0B
  {
    OneAtom(true, 'f', w);
    OneAtom(true, 'n', w);
    OneAtom(true, 'r', w);
    OneAtom(true, 't', w);
    OneAtom(true, 'v', w);
    hide InLanguage;
  }

  /** Escaped punctuation stands for itself. */
  lemma PunctuationWords(c: char, w: string)
    requires IsPunctuationCode(c as int)
    ensures InLanguage([Item(true, c, Once)], w) <==> w == [c]
  {
    OneAtom(true, c, w);
    PunctuationCodes(c);
    hide InLanguage, IsAsciiPunct;
  }

  /** Unescaped, '.' stands for anything but a line feed, and every other character for itself. */
  lemma PlainWords(c: char, w: string)
    ensures InLanguage([Item(false, c, Once)], w) <==> |w| == 1 && if c == '.' then w[0] as int != 0x0A else w[0] == c
  {
    OneAtom(false, c, w);
    hide InLanguage;
  }

  // ---- matching one item at a time ----

  /** The first item takes k characters and the others match the head of what is left. */
  ghost predicate TakesAndGoesOn(items: seq<Item>, dollar: bool, s: string, k: int)
    requires items != []
  {
    0 <= k <= |s| && Allows(items[0].repeat, k) && AllMatch(items[0], s[..k])
    && MatchesHead(items[1..], dollar, s[k..])
  }

  lemma HeadUnfolds(items: seq<Item>, dollar: bool, s: string)
    requires items != []
    ensures MatchesHead(items, dollar, s) <==> exists k :: TakesAndGoesOn(items, dollar, s, k)
  {
    if MatchesHead(items, dollar, s) {
      var n :| 0 <= n <= |s| && InLanguage(items, s[..n]) && (dollar ==> n == |s|);
      var w := s[..n];
      var k :| 0 <= k <= |w| && Allows(items[0].repeat, k) && AllMatch(items[0], w[..k]) && InLanguage(items[1..], w[k..]);
      assert w[..k] == s[..k] && w[k..] == s[k..][..n - k];
      assert TakesAndGoesOn(items, dollar, s, k);
    }
    if k :| TakesAndGoesOn(items, dollar, s, k) {
      var m :| 0 <= m <= |s[k..]| && InLanguage(items[1..], s[k..][..m]) && (dollar ==> m == |s[k..]|);
      var w := s[..k + m];
      assert w[..k] == s[..k] && w[k..] == s[k..][..m];
      assert InLanguage(items, w);
    }
  }

  lemma EmptyHead(dollar: bool, s: string)
    ensures MatchesHead([], dollar, s) <==> (dollar ==> s == "")
  {
    if dollar ==> s == "" {
      var k := if dollar then |s| else 0;
      assert InLanguage([], s[..k]);
    }
  }

  // ---- the matcher ----

  /** The text of the items from the first on is not mistaken for anything else. */
  lemma TextShape(items: seq<Item>, dollar: bool)
    requires AllWellFormed(items)
    ensures items == [] ==> Text(items, dollar) == (if dollar then "$" else "")
    ensures items != [] ==>
              var text, rest := Text(items, dollar), Text(items[1..], dollar);
              var e := if items[0].escaped then 1 else 0;
              && |text| > e && text[0] != '$' && (text[0] == '\\' <==> items[0].escaped)
              && text[e] == items[0].c
              && (IsRepeat(At(text, e + 1)) <==> items[0].repeat != Once)
              && (items[0].repeat == Once ==> text[e + 1..] == rest)
              && (items[0].repeat != Once ==> |text| > e + 1 && [text[e + 1]] == RepeatText(items[0].repeat) && text[e + 2..] == rest)
    ensures !IsRepeat(At(Text(items, dollar), 0))
  {
    if items != [] {
      TextStart(items[1..], dollar);
      assert WellFormed(items[0]);
      SpecialChars(items[0].c);
      RepeatsShow(items[0].repeat);
      hide IsInSet, IsValidEscape, IsRepeat;
      var text, rest := Text(items, dollar), Text(items[1..], dollar);
      var e := if items[0].escaped then 1 else 0;
      assert text == ItemText(items[0]) + rest;
      if items[0].repeat == Once {
        assert text[e + 1..] == rest;
        assert At(text, e + 1) == At(rest, 0);
      } else {
        assert text[e + 2..] == rest;
      }
    }
  }

  lemma RepeatsShow(r: Repeat)
    ensures r != Once ==> |RepeatText(r)| == 1 && IsRepeat(RepeatText(r)[0])
    ensures !IsRepeat(NUL) && !IsRepeat('$') && !IsRepeat('\\')
  {
    SpecialChars(if r == Optional then '?' else if r == Star then '*' else '+');
    SpecialChars('$');
    SpecialChars('\\');
  }

  lemma TextStart(items: seq<Item>, dollar: bool)
    requires AllWellFormed(items)
    ensures !IsRepeat(At(Text(items, dollar), 0))
  {
    if items != [] {
      assert WellFormed(items[0]);
      assert At(Text(items, dollar), 0) == if items[0].escaped then '\\' else items[0].c;
    }
  }

  /**
   * A repeated atom followed by the rest of the regex. No greedy match is sought: the first number of
   * repetitions after which the rest matches will do.
   */
  method MatchRepetitionAndRegexAtHead(escaped: bool, c: char, repeat: char, regex: string, str: string,
                                       ghost items: seq<Item>, ghost dollar: bool)
    returns (result: bool)
    requires items != [] && AllWellFormed(items) && Text(items[1..], dollar) == regex
    requires items[0].escaped == escaped && items[0].c == c && items[0].repeat != Once
    requires [repeat] == RepeatText(items[0].repeat)
    ensures result <==> MatchesHead(items, dollar, str)
    decreases |regex|, 1
  {
    HeadUnfolds(items, dollar, str);
    assert AllWellFormed(items[1..]);
    hide MatchesHead, AtomMatchesChar, AllWellFormed, TakesAndGoesOn, Text;
    var minCount := if repeat == '+' then 1 else 0;
    var i := 0;
    // max_count is 1 for '?', and otherwise more than any string is long
    while repeat != '?' || i <= 1
      invariant 0 <= i <= |str| && AllMatch(items[0], str[..i])
      invariant repeat == '?' ==> i <= 2
      invariant forall k :: 0 <= k < i ==> !TakesAndGoesOn(items, dollar, str, k)
      decreases |str| - i
    {
      TakesIff(items, dollar, str, i);
      if i >= minCount {
        var tailMatches := MatchRegexAtHead(regex, str[i..], items[1..], dollar);
        if tailMatches {
          return true;
        }
      }
      if i == |str| || !AtomMatchesChar(escaped, c, str[i]) {
        forall k | k > i ensures !TakesAndGoesOn(items, dollar, str, k) {
          NoLonger(items, dollar, str, i, k);
        }
        return false;
      }
      assert str[..i + 1] == str[..i] + [str[i]];
      i := i + 1;
    }
    if repeat == '?' {
      forall k | k >= i ensures !TakesAndGoesOn(items, dollar, str, k) {
        OnceAtMost(items, dollar, str, k);
      }
    }
    return false;
  }

  lemma TakesIff(items: seq<Item>, dollar: bool, s: string, i: nat)
    requires items != [] && i <= |s| && AllMatch(items[0], s[..i])
    ensures TakesAndGoesOn(items, dollar, s, i) <==> Allows(items[0].repeat, i) && MatchesHead(items[1..], dollar, s[i..])
  {
  }

  lemma OnceAtMost(items: seq<Item>, dollar: bool, s: string, k: int)
    requires items != [] && items[0].repeat == Optional && k > 1
    ensures !TakesAndGoesOn(items, dollar, s, k)
  {
  }

  lemma LongerNeedsNext(items: seq<Item>, dollar: bool, s: string, i: nat, k: int)
    requires items != [] && i < k && TakesAndGoesOn(items, dollar, s, k)
    ensures i < |s| && AtomMatchesChar(items[0].escaped, items[0].c, s[i])
  {
    assert s[..k][i] == s[i];
  }

  lemma NoLonger(items: seq<Item>, dollar: bool, s: string, i: nat, k: int)
    requires items != [] && i < k
    requires i < |s| ==> !AtomMatchesChar(items[0].escaped, items[0].c, s[i])
    ensures !TakesAndGoesOn(items, dollar, s, k)
  {
    if TakesAndGoesOn(items, dollar, s, k) {
      LongerNeedsNext(items, dollar, s, i, k);
    }
  }

  /** Whether the regex matches a prefix of the string. */
  method MatchRegexAtHead(regex: string, str: string, ghost items: seq<Item>, ghost dollar: bool)
    returns (result: bool)
    requires AllWellFormed(items) && Text(items, dollar) == regex
    ensures result <==> MatchesHead(items, dollar, str)
    decreases |regex|, 0
  {
    TextShape(items, dollar);
    EmptyHead(dollar, str);
    if regex == "" {
      return true;
    }
    if regex[0] == '$' {
      return str == "";
    }
    var escaped := regex[0] == '\\';
    var atom := if escaped then regex[1..] else regex;
    if IsRepeat(At(atom, 1)) {
      result := MatchRepetitionAndRegexAtHead(escaped, atom[0], atom[1], atom[2..], str, items, dollar);
    } else {
      OnceTakesOne(items, dollar, str);
      if str == "" || !AtomMatchesChar(escaped, atom[0], str[0]) {
        return false;
      }
      result := MatchRegexAtHead(atom[1..], str[1..], items[1..], dollar);
    }
  }

  lemma OnceTakesOne(items: seq<Item>, dollar: bool, s: string)
    requires items != [] && items[0].repeat == Once
    ensures MatchesHead(items, dollar, s) <==>
            s != "" && AtomMatchesChar(items[0].escaped, items[0].c, s[0]) && MatchesHead(items[1..], dollar, s[1..])
  {
    HeadUnfolds(items, dollar, s);
    if s != "" {
      assert s[..1] == [s[0]];
      if AtomMatchesChar(items[0].escaped, items[0].c, s[0]) && MatchesHead(items[1..], dollar, s[1..]) {
        assert TakesAndGoesOn(items, dollar, s, 1);
      }
    }
    if k :| TakesAndGoesOn(items, dollar, s, k) {
      assert s[..k][0] == s[0];
    }
  }

  /** Whether the regex matches some substring, or a prefix when it starts with '^'. None is a null pointer. */
  method MatchRegexAnywhere(regex: Option<string>, str: Option<string>, ghost r: Regex) returns (result: bool)
    requires regex.Some? ==> AllWellFormed(r.items) && RegexText(r) == regex.value
    ensures result <==> regex.Some? && str.Some? && MatchesSubstring(r, str.value)
  {
    if regex.None? || str.None? {
      return false;
    }
    TextShape(r.items, r.dollar);
    NotACaret(r);
    if At(regex.value, 0) == '^' {
      assert regex.value[1..] == Text(r.items, r.dollar);
      result := MatchRegexAtHead(regex.value[1..], str.value, r.items, r.dollar);
      return;
    }
    assert regex.value == Text(r.items, r.dollar);
    var i := 0;
    while true
      invariant 0 <= i <= |str.value|
      invariant forall j :: 0 <= j < i ==> !MatchesHead(r.items, r.dollar, str.value[j..])
      decreases |str.value| - i
    {
      var matches := MatchRegexAtHead(regex.value, str.value[i..], r.items, r.dollar);
      if matches {
        return true;
      }
      if i == |str.value| {
        return false;
      }
      i := i + 1;
    }
  }

  lemma NotACaret(r: Regex)
    requires AllWellFormed(r.items)
    ensures At(RegexText(r), 0) == '^' <==> r.anchored
  {
    if !r.anchored && r.items != [] {
      assert WellFormed(r.items[0]);
    }
  }

  // ---- validation ----

  /** No complaint about the text t, which stands first in the regex or follows other characters. */
  ghost predicate NoComplaint(t: string, first: bool, prevRepeatable: bool) {
    if t == "" then true
    else if t[0] == '\\' then
      |t| > 1 && IsValidEscape(t[1]) && NoComplaint(t[2..], false, true)
    else
      && (t[0] == '^' ==> first)
      && (t[0] == '$' ==> |t| == 1)
      && !IsInSet(t[0], "()[]{}|")
      && (IsRepeat(t[0]) ==> prevRepeatable)
      && NoComplaint(t[1..], false, !IsInSet(t[0], "^$?*+"))
  }

  ghost predicate IsLead(lead: string, prevRepeatable: bool) {
    lead == "" || (prevRepeatable && |lead| == 1 && IsRepeat(lead[0]))
  }

  ghost function RepeatOf(lead: string): (r: Repeat)
    requires IsLead(lead, true)
    ensures RepeatText(r) == lead
  {
    if lead == "" then Once else if lead[0] == '?' then Optional else if lead[0] == '*' then Star else Plus
  }

  /** Text without complaint is, after a repeat character of the atom before it, a sequence of items. */
  lemma {:induction false} Parse(t: string, prevRepeatable: bool) returns (lead: string, items: seq<Item>, dollar: bool)
    requires NUL !in t && NoComplaint(t, false, prevRepeatable)
    ensures IsLead(lead, prevRepeatable) && AllWellFormed(items) && t == lead + Text(items, dollar)
    decreases |t|
  {
    if t == "" {
      lead, items, dollar := "", [], false;
      return;
    }
    hide NoComplaint, IsInSet, IsValidEscape, WellFormedAtom;
    if t == "$" {
      lead, items, dollar := "", [], true;
    } else if IsRepeat(t[0]) {
      AfterRepeat(t, prevRepeatable);
      lead, items, dollar := Parse(t[1..], false);
      lead := [t[0]];
    } else {
      var n := FirstAtom(t, prevRepeatable);
      hide IsRepeat;
      lead, items, dollar := Parse(t[n..], true);
      items := FirstItem(t, n, lead, items, dollar);
      lead := "";
    }
  }

  lemma AfterRepeat(t: string, prevRepeatable: bool)
    requires NoComplaint(t, false, prevRepeatable) && t != "" && IsRepeat(t[0])
    ensures prevRepeatable && NoComplaint(t[1..], false, false)
  {
    SpecialChars(t[0]);
    hide IsInSet, IsRepeat, IsValidEscape;
  }

  /** An atom, and what was read after it, starting with its repeat character if it has one. */
  lemma FirstItem(t: string, n: nat, lead: string, later: seq<Item>, dollar: bool) returns (items: seq<Item>)
    requires 1 <= n <= |t| && t[..n] == (if n == 2 then "\\" else "") + [t[n - 1]] && WellFormedAtom(n == 2, t[n - 1])
    requires t[n..] == lead + Text(later, dollar) && IsLead(lead, true) && AllWellFormed(later)
    ensures AllWellFormed(items) && t == Text(items, dollar)
  {
    var item := Item(n == 2, t[n - 1], RepeatOf(lead));
    hide IsLead, WellFormedAtom;
    ItemsCons(t, n, item, lead, later, dollar);
    items := [item] + later;
  }

  lemma FirstAtom(t: string, prevRepeatable: bool) returns (n: nat)
    requires NUL !in t && NoComplaint(t, false, prevRepeatable) && t != "" && t != "$" && !IsRepeat(t[0])
    ensures 1 <= n <= |t| && t[..n] == (if n == 2 then "\\" else "") + [t[n - 1]]
    ensures WellFormedAtom(n == 2, t[n - 1])
    ensures NoComplaint(t[n..], false, true) && NUL !in t[n..]
  {
    SpecialChars(t[0]);
    assert t[0] in t;
    hide IsInSet, IsRepeat, IsValidEscape;
    n := if t[0] == '\\' then 2 else 1;
  }

  lemma ItemsCons(t: string, n: nat, item: Item, lead: string, items: seq<Item>, dollar: bool)
    requires 1 <= n <= |t| && t[n..] == lead + Text(items, dollar) && RepeatText(item.repeat) == lead
    requires t[..n] == (if item.escaped then "\\" else "") + [item.c]
    requires WellFormed(item) && AllWellFormed(items)
    ensures t == Text([item] + items, dollar) && AllWellFormed([item] + items)
  {
    assert t == t[..n] + t[n..] == ItemText(item) + Text(items, dollar);
    hide WellFormed, ItemText;
    assert ([item] + items)[1..] == items;
  }

  lemma {:induction false} TextHasNoComplaint(items: seq<Item>, dollar: bool, prevRepeatable: bool)
    requires AllWellFormed(items)
    ensures NoComplaint(Text(items, dollar), false, prevRepeatable)
    decreases |items|
  {
    if items == [] {
      SpecialChars('$');
    } else {
      var item := items[0];
      assert WellFormed(item);
      TextHasNoComplaint(items[1..], dollar, item.repeat == Once);
      ItemHasNoComplaint(item, Text(items[1..], dollar), prevRepeatable);
    }
  }

  lemma ItemHasNoComplaint(item: Item, rest: string, prevRepeatable: bool)
    requires WellFormed(item) && NoComplaint(rest, false, item.repeat == Once)
    ensures NoComplaint(ItemText(item) + rest, false, prevRepeatable)
  {
    var text, after := ItemText(item) + rest, RepeatText(item.repeat) + rest;
    var n := if item.escaped then 2 else 1;
    SpecialChars(item.c);
    if item.repeat != Once {
      SpecialChars(after[0]);
      assert after[1..] == rest;
    } else {
      assert after == rest;
    }
    hide IsInSet, IsRepeat, IsValidEscape;
    assert NoComplaint(after, false, true);
    assert text[n..] == after;
  }

  /** A regex draws no complaint exactly when it is in the grammar. */
  lemma NoComplaintIsGrammar(regex: string)
    requires NUL !in regex
    ensures NoComplaint(regex, true, false) <==> InGrammar(regex)
  {
    SpecialChars('^');
    hide IsInSet, IsRepeat, IsValidEscape, WellFormed;
    if NoComplaint(regex, true, false) {
      ParseAll(regex);
    }
    if r: Regex :| AllWellFormed(r.items) && RegexText(r) == regex {
      NotACaret(r);
      TextHasNoComplaint(r.items, r.dollar, false);
      if r.anchored {
        assert regex[0] == '^' && regex[1..] == Text(r.items, r.dollar);
      } else {
        assert regex == Text(r.items, r.dollar);
      }
    }
  }

  lemma ParseAll(regex: string)
    requires NUL !in regex && NoComplaint(regex, true, false)
    ensures InGrammar(regex)
  {
    SpecialChars('^');
    hide IsInSet, IsRepeat, IsValidEscape, WellFormed;
    var anchored := At(regex, 0) == '^';
    var tail := if anchored then regex[1..] else regex;
    var lead, items, dollar := Parse(tail, false);
    assert RegexText(Regex(anchored, items, dollar)) == regex;
  }

  lemma EscapeStep(text: string, i: nat, first: bool, prevRepeatable: bool)
    requires i < |text| && text[i] == '\\'
    ensures NoComplaint(text[i..], first, prevRepeatable) <==>
            i + 1 < |text| && IsValidEscape(text[i + 1]) && NoComplaint(text[i + 2..], false, true)
  {
    hide IsInSet, IsRepeat, IsValidEscape;
    if i + 1 < |text| {
      assert text[i..][2..] == text[i + 2..];
    }
  }

  lemma PlainStep(text: string, i: nat, first: bool, prevRepeatable: bool)
    requires i < |text| && text[i] != '\\'
    ensures NoComplaint(text[i..], first, prevRepeatable) <==>
            && (text[i] == '^' ==> first) && (text[i] == '$' ==> i + 1 == |text|)
            && !IsInSet(text[i], "()[]{}|") && (IsRepeat(text[i]) ==> prevRepeatable)
            && NoComplaint(text[i + 1..], false, !IsInSet(text[i], "^$?*+"))
  {
    hide IsInSet, IsRepeat, IsValidEscape;
    assert text[i..][1..] == text[i + 1..];
  }

  /** Reports every problem it meets, so it goes on after the first one. None is a null pointer. */
  method ValidateRegex(regex: Option<string>) returns (isValid: bool)
    requires regex.Some? ==> NUL !in regex.value
    ensures isValid <==> regex.Some? && InGrammar(regex.value)
  {
    if regex.None? {
      return false;
    }
    var text := regex.value;
    NoComplaintIsGrammar(text);
    isValid := true;
    var prevRepeatable := false;
    var i := 0;
    assert text[0..] == text;
    hide IsInSet, IsRepeat, IsValidEscape, InGrammar, NoComplaint;
    while i < |text|
      invariant 0 <= i <= |text|
      invariant isValid && NoComplaint(text[i..], i == 0, prevRepeatable) <==> NoComplaint(text, true, false)
    {
      if text[i] == '\\' {
        EscapeStep(text, i, i == 0, prevRepeatable);
        i := i + 1;
        if i == |text| {
          return false;
        }
        if !IsValidEscape(text[i]) {
          isValid := false;
        }
        prevRepeatable := true;
      } else {
        var ch := text[i];
        PlainStep(text, i, i == 0, prevRepeatable);
        if ch == '^' && i > 0 {
          isValid := false;
        } else if ch == '$' && i + 1 < |text| {
          isValid := false;
        } else if IsInSet(ch, "()[]{}|") {
          isValid := false;
        } else if IsRepeat(ch) && !prevRepeatable {
          isValid := false;
        }
        prevRepeatable := !IsInSet(ch, "^$?*+");
      }
      i := i + 1;
    }
    EndHasNoComplaint(text, i == 0, prevRepeatable);
  }

  lemma EndHasNoComplaint(text: string, first: bool, prevRepeatable: bool)
    ensures NoComplaint(text[|text|..], first, prevRepeatable)
  {
  }

  // ---- the RE class ----

  /** The last character of the regex is a '$' that stands for itself. */
  ghost predicate EndsInEscapedDollar(r: Regex) {
    !r.dollar && r.items != [] && LastIsDollar(r.items)
  }

  ghost predicate LastIsDollar(items: seq<Item>)
    requires items != []
  {
    items[|items| - 1] == Item(true, '$', Once)
  }

  class RE {
    var pattern: Option<string>
    var fullPattern: Option<string>
    var isValid: bool
    ghost var parsed: Regex

    ghost predicate Valid()
      reads this
    {
      isValid ==>
        && AllWellFormed(parsed.items) && pattern == Some(RegexText(parsed))
        && fullPattern == Some(RegexText(Regex(true, parsed.items, parsed.dollar || !EndsInEscapedDollar(parsed))))
    }

    /** RE::Init. The full pattern is the regex with '^' in front and '$' behind, unless those characters are there. */
    constructor (regex: Option<string>)
      requires regex.Some? ==> NUL !in regex.value
      ensures Valid() && pattern == regex
      ensures isValid <==> regex.Some? && InGrammar(regex.value)
    {
      pattern, fullPattern := regex, None;
      new;
      isValid := ValidateRegex(regex);
      if !isValid {
        return;
      }
      var text := regex.value;
      var buffer := if At(text, 0) != '^' then "^" else "";
      buffer := buffer + text;
      buffer := buffer + if |text| == 0 || text[|text| - 1] != '$' then "$" else "";
      fullPattern := Some(buffer);
      ghost var r: Regex :| AllWellFormed(r.items) && RegexText(r) == text;
      parsed := r;
      FullPatternParses(r);
    }

    /** Whether the whole string matches, except for a regex that ends in an escaped '$'. */
    method FullMatch(str: Option<string>) returns (result: bool)
      requires Valid()
      ensures result <==> isValid && str.Some? && MatchesHead(parsed.items, parsed.dollar || !EndsInEscapedDollar(parsed), str.value)
    {
      if !isValid {
        return false;
      }
      result := MatchRegexAnywhere(fullPattern, str, Regex(true, parsed.items, parsed.dollar || !EndsInEscapedDollar(parsed)));
    }

    method PartialMatch(str: Option<string>) returns (result: bool)
      requires Valid()
      ensures result <==> isValid && str.Some? && MatchesSubstring(parsed, str.value)
    {
      if !isValid {
        return false;
      }
      result := MatchRegexAnywhere(pattern, str, parsed);
    }
  }

  ghost function MissingCaret(text: string): string {
    if At(text, 0) != '^' then "^" else ""
  }

  ghost function MissingDollar(text: string): string {
    if text == "" || text[|text| - 1] != '$' then "$" else ""
  }

  /** What the constructor builds is the anchored regex with a '$', except after an escaped '$'. */
  lemma FullPatternParses(r: Regex)
    requires AllWellFormed(r.items)
    ensures var text := RegexText(r);
            RegexText(Regex(true, r.items, r.dollar || !EndsInEscapedDollar(r))) == MissingCaret(text) + text + MissingDollar(text)
  {
    NotACaret(r);
    DollarAppended(r);
    hide AllWellFormed, EndsInEscapedDollar, Text, MissingDollar;
    CaretInFront(r.anchored, Text(r.items, r.dollar), RegexText(r));
  }

  lemma CaretInFront(anchored: bool, body: string, text: string)
    requires text == (if anchored then "^" else "") + body && (At(text, 0) == '^' <==> anchored)
    ensures "^" + (body + MissingDollar(body)) == MissingCaret(text) + text + MissingDollar(text)
  {
    assert body != "" ==> text[|text| - 1] == body[|body| - 1];
  }

  lemma DollarAppended(r: Regex)
    requires AllWellFormed(r.items)
    ensures var body := Text(r.items, r.dollar);
            Text(r.items, r.dollar || !EndsInEscapedDollar(r)) == body + MissingDollar(body)
  {
    if r.items == [] {
      assert Text([], true) == "$" && Text([], false) == "";
    } else {
      LastOfText(r.items);
      AppendDollar(r.items);
      hide Text, LastIsDollar, AllWellFormed;
      var text := Text(r.items, false);
      assert (text + "$")[|text|] == '$';
    }
  }

  lemma {:induction false} AppendDollar(items: seq<Item>)
    ensures Text(items, true) == Text(items, false) + "$"
  {
    if items != [] {
      AppendDollar(items[1..]);
    }
  }

  lemma {:induction false} LastOfText(items: seq<Item>)
    requires AllWellFormed(items) && items != []
    ensures var text := Text(items, false); text != "" && (text[|text| - 1] == '$' <==> LastIsDollar(items))
  {
    if |items| == 1 {
      assert WellFormed(items[0]);
      SpecialChars(items[0].c);
      assert Text(items[1..], false) == "";
    } else {
      LastOfText(items[1..]);
      assert LastIsDollar(items) <==> LastIsDollar(items[1..]);
    }
  }

  // ---- exactly when the full match is one ----

  lemma {:induction false} WordsEndInDollar(items: seq<Item>, w: string)
    requires items != [] && LastIsDollar(items) && InLanguage(items, w)
    ensures w != "" && w[|w| - 1] == '$'
  {
    var k :| 0 <= k <= |w| && Allows(items[0].repeat, k) && AllMatch(items[0], w[..k]) && InLanguage(items[1..], w[k..]);
    if |items| == 1 {
      assert w[..k] == w && AtomMatchesChar(true, '$', w[0]);
    } else {
      WordsEndInDollar(items[1..], w[k..]);
    }
  }

  lemma SomeChar(item: Item) returns (ch: char)
    requires WellFormed(item)
    ensures AtomMatchesChar(item.escaped, item.c, ch)
  {
    ch :=
      if !item.escaped then item.c
      else match item.c
        case 'd' => '0'
        case 'D' => 'a'
        case 'f' => '\U{0C}'
        case 'n' => '\n'
        case 'r' => '\r'
        case 's' => ' '
        case 'S' => 'a'
        case 't' => '\t'
        case 'v' => '\U{0B}'
        case 'w' => 'a'
        case 'W' => ' '
        case c => c;
  }

  lemma {:induction false} SomeWord(items: seq<Item>) returns (w: string)
    requires AllWellFormed(items)
    ensures InLanguage(items, w)
  {
    if items == [] {
      return "";
    }
    assert WellFormed(items[0]);
    var ch := SomeChar(items[0]);
    var rest := SomeWord(items[1..]);
    w := [ch] + rest;
    assert w[..1] == [ch] && w[1..] == rest;
  }

  /** A full match means that the whole string is a word, for every string, exactly unless the regex ends in an escaped '$'. */
  lemma FullMatchIsExactIff(r: Regex)
    requires AllWellFormed(r.items)
    ensures (forall s :: MatchesHead(r.items, r.dollar || !EndsInEscapedDollar(r), s) <==> InLanguage(r.items, s))
            <==> !EndsInEscapedDollar(r)
  {
    if EndsInEscapedDollar(r) {
      var w := SomeWord(r.items);
      var s := w + "a";
      assert s[..|w|] == w && MatchesHead(r.items, r.dollar || !EndsInEscapedDollar(r), s);
      if InLanguage(r.items, s) {
        WordsEndInDollar(r.items, s);
      }
      assert !InLanguage(r.items, s);
    } else {
      hide InLanguage;
      forall s ensures MatchesHead(r.items, true, s) <==> InLanguage(r.items, s) {
        assert s[..|s|] == s;
      }
    }
  }
}
