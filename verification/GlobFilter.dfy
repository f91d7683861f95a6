// gtest.cc: wildcard patterns of test filters. The matching loop remembers only the last '*' and
// where the name stood after it; it still decides the full pattern language.
module GlobFilter {
  import opened Common

  // ---- reference definition ----

  /** '?' stands for one character, '*' for any substring, every other character for itself. */
  ghost predicate InLanguage(p: string, s: string) {
    if p == "" then s == ""
    else if p[0] == '*' then exists k :: 0 <= k <= |s| && InLanguage(p[1..], s[k..])
    else s != "" && (p[0] == '?' || p[0] == s[0]) && InLanguage(p[1..], s[1..])
  }

  /** The patterns of a filter: its parts between colons. */
  ghost function Patterns(filter: string): seq<string> {
    var i := Find(filter, ':');
    if i == |filter| then [filter] else [filter[..i]] + Patterns(filter[i + 1..])
  }

  ghost function JoinColon(ps: seq<string>): string
    requires ps != []
  {
    if |ps| == 1 then ps[0] else ps[0] + ":" + JoinColon(ps[1..])
  }

  /** The patterns hold no colon, and put together with colons they are the filter again. */
  lemma {:induction false} PatternsAreTheParts(filter: string)
    ensures Patterns(filter) != [] && JoinColon(Patterns(filter)) == filter
    ensures forall p :: p in Patterns(filter) ==> ':' !in p
    decreases |filter|
  {
    var i := Find(filter, ':');
    if i < |filter| {
      PatternsAreTheParts(filter[i + 1..]);
      assert Patterns(filter)[1..] == Patterns(filter[i + 1..]);
      assert filter == filter[..i] + ":" + filter[i + 1..];
    }
  }

  // ---- what justifies forgetting all but the last star ----

  /** A pattern that starts with '*' also matches when more of the name is left. */
  lemma StarAbsorbs(p: string, s: string, j: nat, k: nat)
    requires p != "" && p[0] == '*' && j <= k <= |s| && InLanguage(p, s[k..])
    ensures InLanguage(p, s[j..])
  {
    var m :| 0 <= m <= |s[k..]| && InLanguage(p[1..], s[k..][m..]);
    assert s[k..][m..] == s[j..][k - j + m..];
  }

  /** A star-free stretch of the pattern uses up as many characters as it has. */
  lemma {:induction false} StarFreeIsFixed(p: string, s: string, n: nat)
    requires n <= |p| && InLanguage(p, s) && '*' !in p[..n]
    ensures n <= |s| && InLanguage(p[n..], s[n..])
  {
    if n > 0 {
      assert p[0] in p[..n];
      assert p[1..][..n - 1] == p[..n][1..];
      StarFreeIsFixed(p[1..], s[1..], n - 1);
      assert p[1..][n - 1..] == p[n..] && s[1..][n - 1..] == s[n..];
    } else {
      assert p[0..] == p && s[0..] == s;
    }
  }

  /** Reaching a new star at i with the name at j loses nothing: what the previous star could still match, the new one can. */
  lemma NewStarCoversOld(p: string, s: string, star: nat, retry: nat, i: nat, j: nat)
    requires star < i < |p| && p[star] == '*' && p[i] == '*' && '*' !in p[star + 1..i]
    requires j == retry - 1 + (i - star - 1) && 1 <= retry <= |s| && j <= |s|
    requires InLanguage(p[star..], s[retry..])
    ensures InLanguage(p[i..], s[j..])
  {
    var n := i - star - 1;
    var k := StarTakes(p, s, star, retry);
    assert p[star + 1..][..n] == p[star + 1..i];
    StarFreeIsFixed(p[star + 1..], s[k..], n);
    assert p[star + 1..][n..] == p[i..] && s[k..][n..] == s[k + n..];
    hide InLanguage;
    StarAbsorbs(p[i..], s, j, k + n);
  }

  lemma StarTakes(p: string, s: string, star: nat, j: nat) returns (k: nat)
    requires star < |p| && p[star] == '*' && j <= |s| && InLanguage(p[star..], s[j..])
    ensures j <= k <= |s| && InLanguage(p[star + 1..], s[k..])
  {
    var m :| 0 <= m <= |s[j..]| && InLanguage(p[star..][1..], s[j..][m..]);
    assert p[star..][1..] == p[star + 1..] && s[j..][m..] == s[j + m..];
    k := j + m;
  }

  /** Passing a star at i: match no character now, or keep the star and give it one more. */
  lemma StarSplits(p: string, s: string, i: nat, j: nat)
    requires i < |p| && p[i] == '*' && j <= |s|
    ensures InLanguage(p[i..], s[j..]) <==>
            InLanguage(p[i + 1..], s[j..]) || (j < |s| && InLanguage(p[i..], s[j + 1..]))
  {
    assert p[i..][1..] == p[i + 1..] && s[j..][0..] == s[j..];
    if InLanguage(p[i..], s[j..]) {
      var k :| 0 <= k <= |s[j..]| && InLanguage(p[i + 1..], s[j..][k..]);
      if k > 0 {
        assert s[j..][k..] == s[j + 1..][k - 1..];
      }
    }
    if j < |s| && InLanguage(p[i..], s[j + 1..]) {
      StarAbsorbs(p[i..], s, j, j + 1);
    }
  }

  /** Some way of matching is still open: from here, or by letting the last star take one more character. */
  ghost predicate Open(p: string, s: string, i: nat, j: nat, starred: bool, star: nat, retry: nat)
    requires i <= |p| && j <= |s| && star <= |p|
  {
    || InLanguage(p[i..], s[j..])
    || (starred && retry <= |s| && InLanguage(p[star..], s[retry..]))
  }

  /** One pattern character against one name character. */
  lemma CharStep(p: string, s: string, i: nat, j: nat)
    requires i <= |p| && j <= |s| && (i < |p| || j < |s|) && (i < |p| ==> p[i] != '*')
    ensures InLanguage(p[i..], s[j..]) <==>
            i < |p| && j < |s| && (p[i] == '?' || p[i] == s[j]) && InLanguage(p[i + 1..], s[j + 1..])
  {
    if i < |p| {
      assert p[i..][1..] == p[i + 1..];
      if j < |s| {
        assert s[j..][1..] == s[j + 1..];
      }
    }
  }

  // ---- the loop ----

  method PatternMatchesString(name: string, pattern: string) returns (result: bool)
    ensures result <==> InLanguage(pattern, name)
  {
    var i, j := 0, 0;                       // pattern, name
    var patternNext, nameNext := 0, 0;
    ghost var starred := false;
    hide InLanguage;
    assert pattern[0..] == pattern && name[0..] == name;
    while i < |pattern| || j < |name|
      invariant i <= |pattern| && j <= |name| && patternNext <= i
      invariant starred <==> nameNext > 0
      invariant starred ==> patternNext < |pattern| && pattern[patternNext] == '*'
      invariant starred && i > patternNext ==> j == nameNext - 1 + (i - patternNext - 1)
      invariant starred && i == patternNext ==> j == nameNext
      invariant starred && i > patternNext ==> '*' !in pattern[patternNext + 1..i]
      invariant !starred ==> '*' !in pattern[..i]
      invariant InLanguage(pattern, name) <==> Open(pattern, name, i, j, starred && i > patternNext, patternNext, nameNext)
      decreases if starred then |pattern| - patternNext else |pattern| + 1,
                |name| + 2 - nameNext,
                if !starred || i > patternNext then |pattern| - i + 1 else 0
    {
      ghost var retry := starred && i > patternNext;
      if i < |pattern| {
        if pattern[i] == '*' {
          StarSplits(pattern, name, i, j);
          if retry && nameNext <= |name| && InLanguage(pattern[patternNext..], name[nameNext..]) {
            NewStarCoversOld(pattern, name, patternNext, nameNext, i, j);
          }
          patternNext := i;
          nameNext := j + 1;
          starred := true;
          i := i + 1;
          continue;
        }
        CharStep(pattern, name, i, j);
        if pattern[i] == '?' {
          if j < |name| {
            i := i + 1;
            j := j + 1;
            continue;
          }
        } else if j < |name| && name[j] == pattern[i] {
          i := i + 1;
          j := j + 1;
          continue;
        }
      } else {
        CharStep(pattern, name, i, j);
      }
      assert !InLanguage(pattern[i..], name[j..]);
      if 0 < nameNext && nameNext <= |name| {
        i := patternNext;
        j := nameNext;
        continue;
      }
      return false;
    }
    EmptyMatches();
    assert pattern[i..] == "" && name[j..] == "";
    return true;
  }

  lemma EmptyMatches()
    ensures InLanguage("", "")
  {
  }

  ghost predicate SomePatternMatches(filter: string, name: string) {
    exists p :: p in Patterns(filter) && InLanguage(p, name)
  }

  lemma FirstPatternOrLater(filter: string, name: string)
    ensures var i := Find(filter, ':');
            SomePatternMatches(filter, name) <==>
              InLanguage(filter[..i], name) || (i < |filter| && SomePatternMatches(filter[i + 1..], name))
  {
    hide InLanguage;
    var i := Find(filter, ':');
    if i == |filter| {
      assert filter[..i] == filter;
      assert Patterns(filter) == [filter];
    } else {
      var later := Patterns(filter[i + 1..]);
      assert Patterns(filter) == [filter[..i]] + later;
      assert forall p :: p in Patterns(filter) <==> p == filter[..i] || p in later;
    }
  }

  method MatchesFilter(name: string, filter: string) returns (result: bool)
    ensures result <==> exists p :: p in Patterns(filter) && InLanguage(p, name)
  {
    hide InLanguage, Patterns;
    var pattern := 0;
    assert filter[0..] == filter;
    while true
      invariant 0 <= pattern <= |filter|
      invariant SomePatternMatches(filter, name) <==> SomePatternMatches(filter[pattern..], name)
      decreases |filter| - pattern
    {
      var rest := filter[pattern..];
      FirstPatternOrLater(rest, name);
      var nextSep := pattern + Find(rest, ':');
      assert rest[..nextSep - pattern] == filter[pattern..nextSep];
      var matches := PatternMatchesString(name, filter[pattern..nextSep]);
      if matches {
        return true;
      }
      if nextSep == |filter| {
        return false;
      }
      assert rest[nextSep - pattern + 1..] == filter[nextSep + 1..];
      pattern := nextSep + 1;
    }
  }
}
