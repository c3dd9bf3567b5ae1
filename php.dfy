/**
 * The PHP string built-ins WPMail relies on, over strings seen as sequences
 * of Unicode code points: empty(), trim()/ltrim()/rtrim() with a character
 * set, strtolower(), strpos()/stripos(), explode(), implode(), str_replace(),
 * and the `preg_replace('/\s{2,}/u', ' ', ...)` whitespace collapse.
 */
module Php {
  import opened Wrappers

  /** PHP's empty() on a string: only "" and "0" are empty. */
  predicate Falsy(s: string) {
    s == "" || s == "0"
  }

  /** The characters trim() strips when no set is given: " \t\n\r\0\x0B". */
  const TrimChars: set<char> := {' ', '\t', '\n', '\r', '\0', '\U{B}'}

  /**
   * PCRE's `\s` under the `u` modifier (Unicode properties on): the ASCII
   * whitespace characters plus the Unicode horizontal and vertical spaces.
   */
  predicate IsSpace(c: char) {
    || c == ' ' || '\t' <= c <= '\r'
    || c == '\U{85}' || c == '\U{A0}' || c == '\U{1680}' || c == '\U{180E}'
    || '\U{2000}' <= c <= '\U{200A}'
    || c == '\U{2028}' || c == '\U{2029}' || c == '\U{202F}' || c == '\U{205F}' || c == '\U{3000}'
  }

  // ---------------------------------------------------------------------
  // trim, ltrim, rtrim

  /** ltrim($s, $chars): drops every leading character that is in `chars`. */
  function LTrim(s: string, chars: set<char>): (r: string)
    ensures |r| <= |s| && r == s[|s| - |r|..]
    ensures forall i :: 0 <= i < |s| - |r| ==> s[i] in chars
    ensures r == [] || r[0] !in chars
    decreases |s|
  {
    if |s| > 0 && s[0] in chars then
      var r := LTrim(s[1..], chars);
      assert s[1..][|s| - 1 - |r|..] == s[|s| - |r|..];
      r
    else s
  }

  /** rtrim($s, $chars): drops every trailing character that is in `chars`. */
  function RTrim(s: string, chars: set<char>): (r: string)
    ensures |r| <= |s| && r == s[..|r|]
    ensures forall i :: |r| <= i < |s| ==> s[i] in chars
    ensures r == [] || r[|r| - 1] !in chars
    decreases |s|
  {
    if |s| > 0 && s[|s| - 1] in chars then
      var r := RTrim(s[..|s| - 1], chars);
      assert s[..|s| - 1][..|r|] == s[..|r|];
      r
    else s
  }

  /**
   * trim($s, $chars): the infix of `s` left once the characters of `chars`
   * are dropped from both ends; the result neither starts nor ends with one.
   */
  function Trim(s: string, chars: set<char>): (r: string)
    ensures |r| <= |s|
    ensures var k := |s| - |LTrim(s, chars)|;
      && k + |r| <= |s| && r == s[k..k + |r|]
    ensures r == [] || (r[0] !in chars && r[|r| - 1] !in chars)
  {
    var l := LTrim(s, chars);
    var r := RTrim(l, chars);
    InfixOfSuffix(s, l, r);
    r
  }

  /** A prefix `r` of a suffix `l` of `s` is an infix of `s`. */
  lemma InfixOfSuffix(s: string, l: string, r: string)
    requires |l| <= |s| && l == s[|s| - |l|..]
    requires |r| <= |l| && r == l[..|r|]
    ensures var k := |s| - |l|;
      r == s[k..k + |r|]
  {
  }

  /** trim() only drops characters: what is left was there before. */
  lemma TrimSubset(s: string, chars: set<char>)
    ensures forall x :: x in Trim(s, chars) ==> x in s
  {
    var r := Trim(s, chars);
    var k := |s| - |LTrim(s, chars)|;
    forall x | x in r ensures x in s {
      var i :| 0 <= i < |r| && r[i] == x;
      assert r[i] == s[k..k + |r|][i] == s[k + i];
    }
  }

  /** ltrim() drops a leading character of the set. */
  lemma LTrimCons(x: char, s: string, chars: set<char>)
    requires x in chars
    ensures LTrim([x] + s, chars) == LTrim(s, chars)
  {
    assert ([x] + s)[1..] == s;
  }

  /** A string that starts and ends outside `chars` is its own trim. */
  lemma TrimOfTrimmed(s: string, chars: set<char>)
    requires s == [] || (s[0] !in chars && s[|s| - 1] !in chars)
    ensures Trim(s, chars) == s
  {
    assert LTrim(s, chars) == s;
  }

  // ---------------------------------------------------------------------
  // strtolower (ASCII only, as in PHP 8.2 and later)

  function LowerChar(c: char): char {
    if 'A' <= c <= 'Z' then (c as int + 32) as char else c
  }

  /** strtolower($s). */
  function Lower(s: string): (r: string)
    ensures |r| == |s|
    ensures forall i :: 0 <= i < |s| ==> r[i] == LowerChar(s[i])
  {
    seq(|s|, i requires 0 <= i < |s| => LowerChar(s[i]))
  }

  /** No ASCII capital letter occurs in `s`. */
  predicate IsLower(s: string) {
    forall i :: 0 <= i < |s| ==> !('A' <= s[i] <= 'Z')
  }

  /** strtolower() leaves no capital letter. */
  lemma LowerIsLower(s: string)
    ensures IsLower(Lower(s))
  {
  }

  lemma LowerOfLower(s: string)
    requires IsLower(s)
    ensures Lower(s) == s
  {
  }

  /** strtolower() changes letters only: a non-letter is found after it iff before. */
  lemma LowerKeepsOthers(s: string, c: char)
    requires !('A' <= c <= 'Z') && !('a' <= c <= 'z')
    ensures c in Lower(s) <==> c in s
  {
    if c in s {
      var i :| 0 <= i < |s| && s[i] == c;
      assert Lower(s)[i] == c;
    }
  }

  // ---------------------------------------------------------------------
  // Substring search

  /** `pat` occurs in `s` starting at index `i`. */
  predicate MatchAt(s: string, pat: string, i: int) {
    0 <= i && i + |pat| <= |s| && s[i..i + |pat|] == pat
  }

  /** strpos($s, $pat) !== false. */
  predicate Contains(s: string, pat: string) {
    exists i :: 0 <= i <= |s| && MatchAt(s, pat, i)
  }

  /** stripos($s, $pat) !== false: the search ignores ASCII case. */
  predicate ContainsIgnoringCase(s: string, pat: string) {
    Contains(Lower(s), Lower(pat))
  }

  lemma MatchAtTail(s: string, pat: string)
    requires |s| > 0
    ensures forall i :: 0 <= i && MatchAt(s[1..], pat, i) ==> MatchAt(s, pat, i + 1)
    ensures forall i :: 1 <= i && MatchAt(s, pat, i) ==> MatchAt(s[1..], pat, i - 1)
  {
    forall i | 1 <= i && MatchAt(s, pat, i)
      ensures MatchAt(s[1..], pat, i - 1)
    {
      assert s[1..][i - 1..i - 1 + |pat|] == s[i..i + |pat|];
    }
    forall i | 0 <= i && MatchAt(s[1..], pat, i)
      ensures MatchAt(s, pat, i + 1)
    {
      assert s[1..][i..i + |pat|] == s[i + 1..i + 1 + |pat|];
    }
  }

  /** A one-character pattern occurs exactly when the character does. */
  lemma ContainsChar(s: string, c: char)
    ensures Contains(s, [c]) <==> c in s
  {
    if c in s {
      var i :| 0 <= i < |s| && s[i] == c;
      assert s[i..i + 1] == [c];
      assert MatchAt(s, [c], i);
    }
    if Contains(s, [c]) {
      var i :| 0 <= i <= |s| && MatchAt(s, [c], i);
      assert s[i] == s[i..i + 1][0];
    }
  }

  /** strpos($s, $pat): the index of the first occurrence of `pat`, if any. */
  function IndexOf(s: string, pat: string): (r: Option<nat>)
    requires |pat| > 0
    ensures r.Some? ==> MatchAt(s, pat, r.value)
    ensures r.Some? ==> forall j :: 0 <= j < r.value ==> !MatchAt(s, pat, j)
    ensures r.None? <==> !Contains(s, pat)
    decreases |s|
  {
    if |s| < |pat| then None
    else if s[..|pat|] == pat then Some(0)
    else
      MatchAtTail(s, pat);
      match IndexOf(s[1..], pat)
      case None => None
      case Some(i) => Some(i + 1)
  }

  /** A character that does not occur in `s` starts no occurrence before `|s|`. */
  lemma IndexOfAfter(p: string, sep: string, q: string)
    requires |sep| > 0 && sep[0] !in p
    ensures IndexOf(p + sep + q, sep) == Some(|p|)
  {
    var s := p + sep + q;
    assert s[|p|..|p| + |sep|] == sep;
    assert MatchAt(s, sep, |p|);
    forall j | 0 <= j < |p| ensures !MatchAt(s, sep, j) {
      assert s[j] == p[j];
    }
  }

  // ---------------------------------------------------------------------
  // explode and implode

  /** explode($sep, $s): the pieces of `s` between the occurrences of `sep`. */
  function Explode(sep: string, s: string): (parts: seq<string>)
    requires |sep| > 0
    ensures |parts| >= 1
    decreases |s|
  {
    match IndexOf(s, sep)
    case None => [s]
    case Some(i) => [s[..i]] + Explode(sep, s[i + |sep|..])
  }

  /** A string without the separator character is a single piece. */
  lemma ExplodeWhole(c: char, s: string)
    requires c !in s
    ensures Explode([c], s) == [s]
  {
    ContainsChar(s, c);
  }

  /** The first piece is everything before the first separator character. */
  lemma ExplodeFirstPiece(c: char, a: string, rest: string)
    requires c !in a
    ensures Explode([c], a + [c] + rest) == [a] + Explode([c], rest)
  {
    ExplodeAppend(c, a, rest);
    ExplodeWhole(c, a);
  }

  /** A string that contains the separator explodes into two pieces or more. */
  lemma ExplodeSplits(sep: string, s: string)
    requires |sep| > 0 && Contains(s, sep)
    ensures |Explode(sep, s)| >= 2
  {
  }

  /** implode($sep, $parts). */
  function Implode(sep: string, parts: seq<string>): string
  {
    if |parts| == 0 then ""
    else if |parts| == 1 then parts[0]
    else parts[0] + sep + Implode(sep, parts[1..])
  }

  /** Gluing the pieces back together with the separator gives back `s`. */
  lemma {:induction false} ImplodeExplode(sep: string, s: string)
    requires |sep| > 0
    ensures Implode(sep, Explode(sep, s)) == s
    decreases |s|
  {
    match IndexOf(s, sep)
    case None =>
    case Some(i) =>
      var rest := s[i + |sep|..];
      ImplodeExplode(sep, rest);
      ExplodeAt(sep, s, i);
      ImplodeCons(sep, s[..i], Explode(sep, rest));
  }

  /** explode at the first occurrence: the piece before it, then the rest exploded. */
  lemma ExplodeAt(sep: string, s: string, i: nat)
    requires |sep| > 0 && IndexOf(s, sep) == Some(i)
    ensures Explode(sep, s) == [s[..i]] + Explode(sep, s[i + |sep|..])
    ensures s == s[..i] + sep + s[i + |sep|..]
  {
    SplitAround(s, i, |sep|);
  }

  lemma SplitAround(s: string, i: nat, n: nat)
    requires i + n <= |s|
    ensures s == s[..i] + s[i..i + n] + s[i + n..]
  {
  }

  lemma ImplodeCons(sep: string, p: string, tail: seq<string>)
    requires |tail| >= 1
    ensures Implode(sep, [p] + tail) == p + sep + Implode(sep, tail)
  {
    assert ([p] + tail)[1..] == tail;
  }

  /** No piece of an explode contains the separator. */
  lemma {:induction false} ExplodePiecesLackSeparator(sep: string, s: string)
    requires |sep| > 0
    ensures forall p :: p in Explode(sep, s) ==> !Contains(p, sep)
    decreases |s|
  {
    match IndexOf(s, sep)
    case None =>
    case Some(i) =>
      var rest := s[i + |sep|..];
      ExplodePiecesLackSeparator(sep, rest);
      var head := s[..i];
      forall j | 0 <= j <= |head| ensures !MatchAt(head, sep, j) {
        MatchInPrefix(s, sep, i, j);
      }
      ExplodeAt(sep, s, i);
      assert Explode(sep, s) == [head] + Explode(sep, rest);
  }

  /** An occurrence in a prefix is an occurrence in the whole string. */
  lemma MatchInPrefix(s: string, pat: string, n: nat, j: int)
    requires n <= |s|
    ensures MatchAt(s[..n], pat, j) ==> MatchAt(s, pat, j) && j + |pat| <= n
  {
    if MatchAt(s[..n], pat, j) {
      assert s[..n][j..j + |pat|] == s[j..j + |pat|];
    }
  }

  /**
   * Exploding the implosion of pieces, none of which contains the first
   * character of the separator, gives back the pieces.
   */
  lemma {:induction false} ExplodeImplode(sep: string, parts: seq<string>)
    requires |sep| > 0 && |parts| >= 1
    requires forall p :: p in parts ==> sep[0] !in p
    ensures Explode(sep, Implode(sep, parts)) == parts
    decreases |parts|
  {
    if |parts| == 1 {
      assert sep[0] !in parts[0];
    } else {
      var p, tail := parts[0], parts[1..];
      var rest := Implode(sep, tail);
      assert p in parts;
      forall q | q in tail ensures sep[0] !in q {
        assert q in parts;
      }
      ExplodeImplode(sep, tail);
      assert parts == [p] + tail;
      ImplodeCons(sep, p, tail);
      ExplodeAfterPiece(sep, p, rest);
    }
  }

  /** A piece without the separator's first character, then the separator, is split off first. */
  lemma ExplodeAfterPiece(sep: string, p: string, rest: string)
    requires |sep| > 0 && sep[0] !in p
    ensures Explode(sep, p + sep + rest) == [p] + Explode(sep, rest)
  {
    var s := p + sep + rest;
    IndexOfAfter(p, sep, rest);
    assert s[..|p|] == p && s[|p| + |sep|..] == rest;
  }

  /** Searching past a first character that starts no occurrence. */
  lemma IndexOfCons(sep: string, x: char, s: string)
    requires |sep| > 0 && !MatchAt([x] + s, sep, 0)
    ensures IndexOf([x] + s, sep) ==
      match IndexOf(s, sep)
      case None => None
      case Some(i) => Some(i + 1)
  {
    var xs := [x] + s;
    assert xs[1..] == s;
    if |xs| >= |sep| {
      assert xs[..|sep|] == xs[0..0 + |sep|];
    }
  }

  /**
   * explode on a non-occurrence at the front: the first character joins the
   * first piece of the rest.
   */
  lemma ExplodeCons(sep: string, x: char, s: string)
    requires |sep| > 0 && !MatchAt([x] + s, sep, 0)
    ensures var e := Explode(sep, s);
      Explode(sep, [x] + s) == [[x] + e[0]] + e[1..]
  {
    IndexOfCons(sep, x, s);
    match IndexOf(s, sep)
    case None =>
      assert Explode(sep, s) == [s];
      assert Explode(sep, [x] + s) == [[x] + s];
    case Some(i) =>
      ExplodeConsAt(sep, x, s, i);
  }

  /** ExplodeCons when the rest has an occurrence at `i`. */
  lemma ExplodeConsAt(sep: string, x: char, s: string, i: nat)
    requires |sep| > 0 && IndexOf(s, sep) == Some(i) && IndexOf([x] + s, sep) == Some(i + 1)
    ensures var e := Explode(sep, s);
      Explode(sep, [x] + s) == [[x] + e[0]] + e[1..]
  {
    var xs := [x] + s;
    var after := s[i + |sep|..];
    assert xs[i + 1 + |sep|..] == after;
    assert xs[..i + 1] == [x] + s[..i];
    var rest := Explode(sep, after);
    var e := Explode(sep, s);
    ExplodeAt(sep, s, i);
    ExplodeAt(sep, xs, i + 1);
    assert e[0] == s[..i] && e[1..] == rest;
  }

  lemma ExplodeLeadingSeparator(sep: string, t: string)
    requires |sep| > 0
    ensures Explode(sep, sep + t) == [""] + Explode(sep, t)
  {
    IndexOfAfter([], sep, t);
    assert [] + sep + t == sep + t;
    assert (sep + t)[..0] == "" && (sep + t)[|sep|..] == t;
  }

  /** Splitting on a one-character separator distributes over a separator. */
  lemma {:induction false} ExplodeAppend(c: char, a: string, b: string)
    ensures Explode([c], a + [c] + b) == Explode([c], a) + Explode([c], b)
    decreases |a|
  {
    var sep := [c];
    var s := a + sep + b;
    if a == [] {
      assert s == sep + b;
      ExplodeLeadingSeparator(sep, b);
      assert IndexOf(a, sep) == None;
    } else if a[0] == c {
      ExplodeAppend(c, a[1..], b);
      ExplodeAppendSep(c, a, b);
    } else {
      ExplodeAppend(c, a[1..], b);
      ExplodeAppendCons(c, a, b);
    }
  }

  lemma ExplodeAppendSep(c: char, a: string, b: string)
    requires a != [] && a[0] == c
    requires Explode([c], a[1..] + [c] + b) == Explode([c], a[1..]) + Explode([c], b)
    ensures Explode([c], a + [c] + b) == Explode([c], a) + Explode([c], b)
  {
    var sep := [c];
    var t := a[1..] + sep + b;
    LeadingChar(c, a, b);
    ExplodeLeadingSeparator(sep, t);
    ExplodeLeadingSeparator(sep, a[1..]);
    LeadingEmpty(Explode(sep, a[1..]), Explode(sep, b));
  }

  lemma LeadingChar(c: char, a: string, b: string)
    requires a != [] && a[0] == c
    ensures a + [c] + b == [c] + (a[1..] + [c] + b)
    ensures a == [c] + a[1..]
  {
  }

  lemma LeadingEmpty(x: seq<string>, y: seq<string>)
    ensures [""] + (x + y) == ([""] + x) + y
  {
  }

  lemma ConsFirstPiece(x: char, e: seq<string>, f: seq<string>)
    requires |e| >= 1
    ensures [[x] + (e + f)[0]] + (e + f)[1..] == ([[x] + e[0]] + e[1..]) + f
  {
    assert (e + f)[0] == e[0];
    assert (e + f)[1..] == e[1..] + f;
  }

  lemma ExplodeAppendCons(c: char, a: string, b: string)
    requires a != [] && a[0] != c
    requires Explode([c], a[1..] + [c] + b) == Explode([c], a[1..]) + Explode([c], b)
    ensures Explode([c], a + [c] + b) == Explode([c], a) + Explode([c], b)
  {
    var sep := [c];
    var t := a[1..] + sep + b;
    assert a + sep + b == [a[0]] + t;
    assert a == [a[0]] + a[1..];
    assert ([a[0]] + t)[0..1] == [a[0]];
    assert a[0..1] == [a[0]];
    ExplodeCons(sep, a[0], t);
    ExplodeCons(sep, a[0], a[1..]);
    ConsFirstPiece(a[0], Explode(sep, a[1..]), Explode(sep, b));
  }

  // ---------------------------------------------------------------------
  // str_replace

  /**
   * str_replace($search, $replace, $s): every occurrence of `search`, found
   * left to right without overlap, is replaced by `replace`.
   */
  function StrReplace(search: string, replace: string, s: string): string
    requires |search| > 0
    decreases |s|
  {
    if |s| == 0 then ""
    else if MatchAt(s, search, 0) then replace + StrReplace(search, replace, s[|search|..])
    else [s[0]] + StrReplace(search, replace, s[1..])
  }

  lemma ImplodeConsHead(sep: string, x: char, e: seq<string>)
    requires |e| >= 1
    ensures Implode(sep, [[x] + e[0]] + e[1..]) == [x] + Implode(sep, e)
  {
    assert e == [e[0]] + e[1..];
    assert ([[x] + e[0]] + e[1..])[1..] == e[1..];
  }

  lemma ImplodeLeadingEmpty(sep: string, e: seq<string>)
    requires |e| >= 1
    ensures Implode(sep, [""] + e) == sep + Implode(sep, e)
  {
    assert ([""] + e)[1..] == e;
  }

  /** str_replace is implode of the replacement over explode of the search. */
  lemma {:induction false} StrReplaceIsImplodeExplode(search: string, replace: string, s: string)
    requires |search| > 0
    ensures StrReplace(search, replace, s) == Implode(replace, Explode(search, s))
    decreases |s|
  {
    if |s| == 0 {
      assert IndexOf(s, search) == None;
    } else if MatchAt(s, search, 0) {
      var rest := s[|search|..];
      assert s == search + rest;
      StrReplaceIsImplodeExplode(search, replace, rest);
      ExplodeLeadingSeparator(search, rest);
      ImplodeLeadingEmpty(replace, Explode(search, rest));
    } else {
      assert s == [s[0]] + s[1..];
      ExplodeCons(search, s[0], s[1..]);
      StrReplaceIsImplodeExplode(search, replace, s[1..]);
      ImplodeConsHead(replace, s[0], Explode(search, s[1..]));
    }
  }

  /** str_replace keeps a first character that starts no occurrence. */
  lemma StrReplaceSkip(search: string, replace: string, x: char, s: string)
    requires |search| > 0 && search[0] != x
    ensures StrReplace(search, replace, [x] + s) == [x] + StrReplace(search, replace, s)
  {
    var xs := [x] + s;
    assert xs[1..] == s;
  }

  /** str_replace passes over a prefix in which the search cannot start. */
  lemma {:induction false} StrReplaceSkipPrefix(search: string, replace: string, p: string, s: string)
    requires |search| > 0 && search[0] !in p
    ensures StrReplace(search, replace, p + s) == p + StrReplace(search, replace, s)
    decreases |p|
  {
    if |p| > 0 {
      var x, q := p[0], p[1..];
      assert p == [x] + q;
      NotInTail(search[0], p);
      StrReplaceSkipPrefix(search, replace, q, s);
      StrReplaceSkip(search, replace, x, q + s);
      ConsAppend(x, q, s, StrReplace(search, replace, s));
    } else {
      assert p + s == s;
    }
  }

  /** A character missing from a string is missing from its tail. */
  lemma NotInTail(c: char, p: string)
    requires |p| > 0 && c !in p
    ensures c !in p[1..] && c != p[0]
  {
    assert p == [p[0]] + p[1..];
  }

  /** Regrouping a leading character. */
  lemma ConsAppend(x: char, q: string, s: string, t: string)
    ensures [x] + q + s == [x] + (q + s)
    ensures [x] + (q + t) == [x] + q + t
  {
  }

  /** str_replace replaces an occurrence at the front. */
  lemma StrReplaceHit(search: string, replace: string, s: string)
    requires |search| > 0
    ensures StrReplace(search, replace, search + s) == replace + StrReplace(search, replace, s)
  {
    var xs := search + s;
    assert xs[0..|search|] == search;
    assert xs[|search|..] == s;
  }

  /** Without an occurrence of `search`, str_replace changes nothing. */
  lemma {:induction false} StrReplaceAbsent(search: string, replace: string, s: string)
    requires |search| > 0 && !Contains(s, search)
    ensures StrReplace(search, replace, s) == s
    decreases |s|
  {
    if |s| > 0 {
      assert !MatchAt(s, search, 0);
      MatchAtTail(s, search);
      StrReplaceAbsent(search, replace, s[1..]);
      assert s == [s[0]] + s[1..];
    }
  }

  /** Replacing a character by nothing removes every copy of it. */
  lemma {:induction false} RemoveCharLeavesNone(c: char, s: string)
    ensures c !in StrReplace([c], "", s)
    decreases |s|
  {
    if |s| > 0 {
      if MatchAt(s, [c], 0) {
        RemoveCharLeavesNone(c, s[1..]);
      } else {
        assert s[..1] != [c];
        assert s[0] != c;
        RemoveCharLeavesNone(c, s[1..]);
      }
    }
  }

  // ---------------------------------------------------------------------
  // preg_replace('/\s{2,}/siu', ' ', $s)

  /** No two whitespace characters stand next to each other. */
  predicate NoDoubleSpace(s: string) {
    forall i :: 0 <= i < |s| - 1 ==> !(IsSpace(s[i]) && IsSpace(s[i + 1]))
  }

  /** trim() of a string without double whitespace has none either. */
  lemma TrimNoDoubleSpace(s: string, chars: set<char>)
    requires NoDoubleSpace(s)
    ensures NoDoubleSpace(Trim(s, chars))
  {
    var r := Trim(s, chars);
    NoDoubleSpaceInfix(s, |s| - |LTrim(s, chars)|, |r|);
  }

  lemma NoDoubleSpaceInfix(s: string, k: nat, n: nat)
    requires NoDoubleSpace(s) && k + n <= |s|
    ensures NoDoubleSpace(s[k..k + n])
  {
    var t := s[k..k + n];
    forall i | 0 <= i < |t| - 1
      ensures !(IsSpace(t[i]) && IsSpace(t[i + 1]))
    {
      assert t[i] == s[k + i] && t[i + 1] == s[k + i + 1];
    }
  }

  lemma NoDoubleSpaceConcat(a: string, b: string)
    requires NoDoubleSpace(a) && NoDoubleSpace(b)
    requires a == [] || b == [] || !IsSpace(a[|a| - 1]) || !IsSpace(b[0])
    ensures NoDoubleSpace(a + b)
  {
    var s := a + b;
    forall i | 0 <= i < |s| - 1
      ensures !(IsSpace(s[i]) && IsSpace(s[i + 1]))
    {
      if i + 1 < |a| {
        assert s[i] == a[i] && s[i + 1] == a[i + 1];
      } else if i >= |a| {
        assert s[i] == b[i - |a|] && s[i + 1] == b[i - |a| + 1];
      } else {
        assert s[i] == a[|a| - 1] && s[i + 1] == b[0];
      }
    }
  }

  /** The length of the run of whitespace that starts `s`. */
  function SpaceRun(s: string): (n: nat)
    ensures n <= |s|
    ensures forall i :: 0 <= i < n ==> IsSpace(s[i])
    ensures n < |s| ==> !IsSpace(s[n])
    decreases |s|
  {
    if |s| > 0 && IsSpace(s[0]) then 1 + SpaceRun(s[1..]) else 0
  }

  /**
   * The regular-expression replace: every run of two or more whitespace
   * characters becomes one space; a lone whitespace character is kept as is.
   */
  function CollapseSpaces(s: string): (r: string)
    ensures NoDoubleSpace(r)
    ensures |r| == 0 <==> |s| == 0
    ensures |s| > 0 ==> (IsSpace(r[0]) <==> IsSpace(s[0]))
    ensures |r| <= |s|
    ensures forall c :: c in r ==> c == ' ' || c in s
    decreases |s|
  {
    if |s| == 0 then ""
    else if IsSpace(s[0]) then
      var n := SpaceRun(s);
      (if n >= 2 then " " else [s[0]]) + CollapseSpaces(s[n..])
    else [s[0]] + CollapseSpaces(s[1..])
  }

  /** The collapse changes exactly the strings that have a double space. */
  lemma {:induction false} CollapseFixpoint(s: string)
    ensures CollapseSpaces(s) == s <==> NoDoubleSpace(s)
    decreases |s|
  {
    if NoDoubleSpace(s) && |s| > 0 {
      CollapseFixpoint(s[1..]);
      if IsSpace(s[0]) {
        assert |s| > 1 ==> !IsSpace(s[1]);
        assert SpaceRun(s) == 1;
      }
      assert s == [s[0]] + s[1..];
    }
  }

  /** A character that is neither PCRE whitespace nor stripped by trim(). */
  predicate IsGlyph(c: char) {
    !IsSpace(c) && c !in TrimChars
  }

  /** The characters of `s` that are glyphs, in order. */
  function Glyphs(s: string): (r: string)
    ensures forall c :: c in r ==> IsGlyph(c)
    decreases |s|
  {
    if |s| == 0 then ""
    else if IsGlyph(s[0]) then [s[0]] + Glyphs(s[1..])
    else Glyphs(s[1..])
  }

  lemma {:induction false} GlyphsAppend(a: string, b: string)
    ensures Glyphs(a + b) == Glyphs(a) + Glyphs(b)
    decreases |a|
  {
    if |a| == 0 {
      assert a + b == b;
    } else {
      assert (a + b)[0] == a[0];
      assert (a + b)[1..] == a[1..] + b;
      GlyphsAppend(a[1..], b);
    }
  }

  lemma {:induction false} GlyphsNone(s: string)
    requires forall i :: 0 <= i < |s| ==> !IsGlyph(s[i])
    ensures Glyphs(s) == ""
    decreases |s|
  {
    if |s| > 0 {
      GlyphsNone(s[1..]);
    }
  }

  /** The collapse keeps every glyph, in order. */
  lemma {:induction false} CollapseKeepsGlyphs(s: string)
    ensures Glyphs(CollapseSpaces(s)) == Glyphs(s)
    decreases |s|
  {
    if |s| > 0 {
      var n := if IsSpace(s[0]) then SpaceRun(s) else 1;
      var head := if IsSpace(s[0]) && n >= 2 then " " else [s[0]];
      assert s == s[..n] + s[n..];
      CollapseKeepsGlyphs(s[n..]);
      GlyphsAppend(head, CollapseSpaces(s[n..]));
      GlyphsAppend(s[..n], s[n..]);
      if IsSpace(s[0]) {
        GlyphsNone(s[..n]);
        GlyphsNone(head);
      } else {
        assert s[..n] == head;
      }
    }
  }

  lemma LTrimKeepsGlyphs(s: string)
    ensures Glyphs(LTrim(s, TrimChars)) == Glyphs(s)
  {
    var r := LTrim(s, TrimChars);
    var k := |s| - |r|;
    assert s == s[..k] + r;
    GlyphsAppend(s[..k], r);
    GlyphsNone(s[..k]);
  }

  lemma RTrimKeepsGlyphs(s: string)
    ensures Glyphs(RTrim(s, TrimChars)) == Glyphs(s)
  {
    var r := RTrim(s, TrimChars);
    assert s == r + s[|r|..];
    GlyphsAppend(r, s[|r|..]);
    GlyphsNone(s[|r|..]);
  }

  /** trim() keeps every glyph, in order. */
  lemma TrimKeepsGlyphs(s: string)
    ensures Glyphs(Trim(s, TrimChars)) == Glyphs(s)
  {
    LTrimKeepsGlyphs(s);
    RTrimKeepsGlyphs(LTrim(s, TrimChars));
  }
}
