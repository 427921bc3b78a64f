/**
 * The Python string built-ins the password extractor and the level loop rely
 * on: `str.split(',')`, `str.strip()`, the anchored regular expression `^\w+`,
 * `str.lower()` and the substring test `in`.
 */
module Text {
  import opened Wrappers

  /** The characters `str.strip()` with no argument removes: exactly those for
      which Python's `str.isspace()` holds. */
  predicate IsSpace(c: char) {
    c == ' ' || ('\t' <= c <= '\r') || ('\U{1C}' <= c <= '\U{1F}')
    || c == '\U{85}' || c == '\U{A0}' || c == '\U{1680}'
    || ('\U{2000}' <= c <= '\U{200A}') || c == '\U{2028}' || c == '\U{2029}'
    || c == '\U{202F}' || c == '\U{205F}' || c == '\U{3000}'
  }

  /** The regular-expression class `\w` on ASCII: letters, digits and the
      underscore. */
  predicate IsAsciiWordChar(c: char) {
    ('a' <= c <= 'z') || ('A' <= c <= 'Z') || ('0' <= c <= '9') || c == '_'
  }

  /** The class `\w` of a pattern on `str` is Unicode-wide: every character
      for which `str.isalnum()` holds, and the underscore. Its table is not
      written out here; the operations that use it take it as a parameter
      `isWord`, and this predicate says that such a parameter agrees with
      `\w` on ASCII. */
  ghost predicate AgreesWithWordOnAscii(isWord: char -> bool) {
    forall c: char :: c < '\U{80}' ==> (isWord(c) <==> IsAsciiWordChar(c))
  }

  /** Like `\w`, `isWord` holds of no whitespace character. */
  ghost predicate ExcludesSpace(isWord: char -> bool) {
    forall c: char :: IsSpace(c) ==> !isWord(c)
  }

  // ---------------------------------------------------------------------------
  // str.split(sep)

  /** Python's `s.split(sep)` for a one-character separator: the pieces of `s`
      between separators, so the empty string gives one empty piece and every
      separator adds one piece. */
  function Split(s: string, sep: char): (parts: seq<string>)
    ensures |parts| >= 1
  {
    if s == [] then [[]]
    else
      var rest := Split(s[1..], sep);
      if s[0] == sep then [[]] + rest
      else [[s[0]] + rest[0]] + rest[1..]
  }

  /** No piece contains the separator. */
  lemma {:induction false} SplitNoSeparator(s: string, sep: char)
    ensures forall k :: 0 <= k < |Split(s, sep)| ==> sep !in Split(s, sep)[k]
  {
    if s != [] {
      SplitNoSeparator(s[1..], sep);
      var rest := Split(s[1..], sep);
      if s[0] != sep {
        assert sep !in [s[0]] + rest[0];
      }
    }
  }

  /** There is one more piece than there are separators. */
  lemma {:induction false} SplitCount(s: string, sep: char)
    ensures |Split(s, sep)| == multiset(s)[sep] + 1
  {
    if s != [] {
      SplitCount(s[1..], sep);
      assert s == [s[0]] + s[1..];
    }
  }

  /** Python's `sep.join(parts)`. */
  function Join(parts: seq<string>, sep: char): string {
    if parts == [] then []
    else if |parts| == 1 then parts[0]
    else parts[0] + [sep] + Join(parts[1..], sep)
  }

  /** Joining the pieces with the separator gives back the split string. */
  lemma {:induction false} JoinSplit(s: string, sep: char)
    ensures Join(Split(s, sep), sep) == s
  {
    if s != [] {
      var rest := Split(s[1..], sep);
      JoinSplit(s[1..], sep);
      if s[0] == sep {
        assert Split(s, sep) == [[]] + rest;
        assert Join(Split(s, sep), sep) == [] + [sep] + Join(rest, sep);
      } else {
        var parts := Split(s, sep);
        assert parts == [[s[0]] + rest[0]] + rest[1..];
        if |rest| == 1 {
          assert Join(parts, sep) == [s[0]] + rest[0];
        } else {
          assert parts[1..] == rest[1..];
          assert Join(rest, sep) == rest[0] + [sep] + Join(rest[1..], sep);
          assert Join(parts, sep) == [s[0]] + rest[0] + [sep] + Join(rest[1..], sep);
        }
      }
    }
  }

  /** Splitting a join of separator-free pieces gives back the pieces. */
  lemma {:induction false} SplitJoin(parts: seq<string>, sep: char)
    requires |parts| >= 1
    requires forall k :: 0 <= k < |parts| ==> sep !in parts[k]
    ensures Split(Join(parts, sep), sep) == parts
    decreases |parts|, |parts[0]|
  {
    var p0 := parts[0];
    if |p0| > 0 {
      var shorter := [p0[1..]] + parts[1..];
      forall k | 0 <= k < |shorter| ensures sep !in shorter[k] {
        if k > 0 { assert shorter[k] == parts[k]; }
      }
      SplitJoin(shorter, sep);
      SplitJoinFirstChar(parts, sep);
    } else if |parts| > 1 {
      SplitJoin(parts[1..], sep);
      SplitJoinEmptyFirst(parts, sep);
    } else {
      assert parts == [[]];
    }
  }

  /** The step of `SplitJoin` that removes the first character of the first piece. */
  lemma SplitJoinFirstChar(parts: seq<string>, sep: char)
    requires |parts| >= 1 && |parts[0]| > 0 && parts[0][0] != sep
    requires Split(Join([parts[0][1..]] + parts[1..], sep), sep) == [parts[0][1..]] + parts[1..]
    ensures Split(Join(parts, sep), sep) == parts
  {
    var p0 := parts[0];
    var shorter := [p0[1..]] + parts[1..];
    var j := Join(shorter, sep);
    JoinFirstChar(parts, sep);
    SplitCons(p0[0], j, sep);
    calc {
      Split(Join(parts, sep), sep);
      Split([p0[0]] + j, sep);
      [[p0[0]] + Split(j, sep)[0]] + Split(j, sep)[1..];
      { assert Split(j, sep)[1..] == parts[1..]; }
      [[p0[0]] + p0[1..]] + parts[1..];
      { assert [p0[0]] + p0[1..] == p0; }
      [p0] + parts[1..];
      parts;
    }
  }

  /** The step of `SplitJoin` that removes an empty first piece. */
  lemma SplitJoinEmptyFirst(parts: seq<string>, sep: char)
    requires |parts| > 1 && parts[0] == []
    requires Split(Join(parts[1..], sep), sep) == parts[1..]
    ensures Split(Join(parts, sep), sep) == parts
  {
    var j := Join(parts[1..], sep);
    SplitCons(sep, j, sep);
    calc {
      Split(Join(parts, sep), sep);
      Split([sep] + j, sep);
      [[]] + Split(j, sep);
      [parts[0]] + parts[1..];
      parts;
    }
  }

  /** Peeling the first character off a join whose first piece is not empty. */
  lemma JoinFirstChar(parts: seq<string>, sep: char)
    requires |parts| >= 1 && |parts[0]| > 0
    ensures Join(parts, sep) == [parts[0][0]] + Join([parts[0][1..]] + parts[1..], sep)
  {
    var shorter := [parts[0][1..]] + parts[1..];
    assert shorter[1..] == parts[1..];
    assert parts[0] == [parts[0][0]] + parts[0][1..];
  }

  /** One step of `Split` on a string with a known first character. */
  lemma SplitCons(c: char, s: string, sep: char)
    ensures Split([c] + s, sep) ==
      if c == sep then [[]] + Split(s, sep) else [[c] + Split(s, sep)[0]] + Split(s, sep)[1..]
  {
    assert ([c] + s)[1..] == s;
  }

  /** Every character of every piece comes from the split string. */
  lemma {:induction false} SplitPartsFromString(s: string, sep: char)
    ensures forall k, i :: 0 <= k < |Split(s, sep)| && 0 <= i < |Split(s, sep)[k]| ==> Split(s, sep)[k][i] in s
  {
    if s != [] {
      SplitPartsFromString(s[1..], sep);
      var rest := Split(s[1..], sep);
      var parts := Split(s, sep);
      forall k, i | 0 <= k < |parts| && 0 <= i < |parts[k]| ensures parts[k][i] in s {
        if s[0] == sep {
          assert parts[k] == rest[k - 1];
          assert rest[k - 1][i] in s[1..];
        } else if k == 0 {
          if i > 0 {
            assert parts[0][i] == rest[0][i - 1];
            assert rest[0][i - 1] in s[1..];
          }
        } else {
          assert parts[k] == rest[k];
          assert rest[k][i] in s[1..];
        }
      }
    }
  }

  // ---------------------------------------------------------------------------
  // str.strip()

  /** The number of whitespace characters at the start of `s`. */
  function LeadingSpaces(s: string): (n: nat)
    ensures n <= |s|
  {
    if s != [] && IsSpace(s[0]) then 1 + LeadingSpaces(s[1..]) else 0
  }

  /** `LeadingSpaces` counts exactly the whitespace run at the start. */
  lemma {:induction false} LeadingSpacesSpec(s: string)
    ensures forall i :: 0 <= i < LeadingSpaces(s) ==> IsSpace(s[i])
    ensures LeadingSpaces(s) < |s| ==> !IsSpace(s[LeadingSpaces(s)])
  {
    if s != [] && IsSpace(s[0]) {
      LeadingSpacesSpec(s[1..]);
    }
  }

  /** The number of whitespace characters at the end of `s`. */
  function TrailingSpaces(s: string): (n: nat)
    ensures n <= |s|
  {
    if s != [] && IsSpace(s[|s| - 1]) then 1 + TrailingSpaces(s[..|s| - 1]) else 0
  }

  /** `TrailingSpaces` counts exactly the whitespace run at the end. */
  lemma {:induction false} TrailingSpacesSpec(s: string)
    ensures forall i :: |s| - TrailingSpaces(s) <= i < |s| ==> IsSpace(s[i])
    ensures TrailingSpaces(s) < |s| ==> !IsSpace(s[|s| - 1 - TrailingSpaces(s)])
  {
    if s != [] && IsSpace(s[|s| - 1]) {
      TrailingSpacesSpec(s[..|s| - 1]);
    }
  }

  /** Python's `s.strip()`: `s` without its leading and trailing whitespace. */
  function Strip(s: string): string {
    var t := s[LeadingSpaces(s)..];
    t[..|t| - TrailingSpaces(t)]
  }

  /** `Strip(s)` is the window of `s` between its leading and its trailing
      whitespace. */
  lemma StripWindow(s: string)
    ensures LeadingSpaces(s) + |Strip(s)| + TrailingSpaces(s[LeadingSpaces(s)..]) == |s|
    ensures Strip(s) == s[LeadingSpaces(s)..LeadingSpaces(s) + |Strip(s)|]
  {
    var a := LeadingSpaces(s);
    var t := s[a..];
    var k := |t| - TrailingSpaces(t);
    assert Strip(s) == t[..k];
    assert t[..k] == s[a..a + k];
  }

  /** Only whitespace follows `Strip(s)` in `s`. */
  lemma StripTrailing(s: string)
    ensures LeadingSpaces(s) + |Strip(s)| <= |s|
    ensures forall i :: LeadingSpaces(s) + |Strip(s)| <= i < |s| ==> IsSpace(s[i])
  {
    StripWindow(s);
    var a := LeadingSpaces(s);
    var t := s[a..];
    TrailingSpacesSpec(t);
    forall i | a + |Strip(s)| <= i < |s| ensures IsSpace(s[i]) {
      assert s[i] == t[i - a];
    }
  }

  /** A non-empty `Strip(s)` starts and ends with a character that is not
      whitespace. */
  lemma StripEnds(s: string)
    ensures Strip(s) != [] ==> !IsSpace(Strip(s)[0]) && !IsSpace(Strip(s)[|Strip(s)| - 1])
  {
    var a := LeadingSpaces(s);
    var t := s[a..];
    var r := Strip(s);
    if r != [] {
      LeadingSpacesSpec(s);
      TrailingSpacesSpec(t);
      assert r[0] == t[0] == s[a];
      assert r[|r| - 1] == t[|t| - 1 - TrailingSpaces(t)];
    }
  }

  /** `Strip(s)` is the window of `s` that starts and ends with a character
      that is not whitespace, with only whitespace around it; it is empty
      exactly when `s` is all whitespace. */
  lemma StripSpec(s: string)
    ensures LeadingSpaces(s) + |Strip(s)| <= |s|
    ensures Strip(s) == s[LeadingSpaces(s)..LeadingSpaces(s) + |Strip(s)|]
    ensures forall i :: 0 <= i < LeadingSpaces(s) ==> IsSpace(s[i])
    ensures forall i :: LeadingSpaces(s) + |Strip(s)| <= i < |s| ==> IsSpace(s[i])
    ensures Strip(s) != [] ==> !IsSpace(Strip(s)[0]) && !IsSpace(Strip(s)[|Strip(s)| - 1])
    ensures Strip(s) == [] <==> forall i :: 0 <= i < |s| ==> IsSpace(s[i])
  {
    LeadingSpacesSpec(s);
    StripWindow(s);
    StripTrailing(s);
    StripEnds(s);
    var a := LeadingSpaces(s);
    if Strip(s) != [] {
      assert Strip(s)[0] == s[a];
    }
  }

  // ---------------------------------------------------------------------------
  // re.search(r'^\w+', s)

  /** The longest prefix of `s` made of word characters. */
  function LeadingWord(isWord: char -> bool, s: string): (w: string)
    ensures |w| <= |s|
  {
    if s != [] && isWord(s[0]) then [s[0]] + LeadingWord(isWord, s[1..]) else []
  }

  /** `LeadingWord(isWord, s)` is a prefix of `s`, made of word characters,
      and cannot be extended. */
  lemma {:induction false} LeadingWordSpec(isWord: char -> bool, s: string)
    ensures LeadingWord(isWord, s) == s[..|LeadingWord(isWord, s)|]
    ensures forall i :: 0 <= i < |LeadingWord(isWord, s)| ==> isWord(s[i])
    ensures |LeadingWord(isWord, s)| < |s| ==> !isWord(s[|LeadingWord(isWord, s)|])
  {
    if s != [] && isWord(s[0]) {
      LeadingWordSpec(isWord, s[1..]);
      assert s == [s[0]] + s[1..];
    }
  }

  /** `re.search(r'^\w+', s)` with the matched text as its value; `isWord`
      is the class `\w`. */
  function MatchLeadingWord(isWord: char -> bool, s: string): (m: Option<string>)
    ensures m.Some? ==> m.value != []
  {
    var w := LeadingWord(isWord, s);
    if w == [] then None else Some(w)
  }

  /** There is no match when `s` does not start with a word character;
      otherwise the match is the maximal run of word characters at the start
      of `s`. */
  lemma MatchLeadingWordSpec(isWord: char -> bool, s: string)
    ensures MatchLeadingWord(isWord, s).None? <==> s == [] || !isWord(s[0])
    ensures MatchLeadingWord(isWord, s).Some? ==>
      var w := MatchLeadingWord(isWord, s).value;
      && |w| <= |s| && w == s[..|w|]
      && (forall i :: 0 <= i < |w| ==> isWord(w[i]))
      && (|w| == |s| || !isWord(s[|w|]))
  {
    LeadingWordSpec(isWord, s);
  }

  // ---------------------------------------------------------------------------
  // str.lower() and the substring test

  function LowerChar(c: char): char {
    if 'A' <= c <= 'Z' then (c as int + 32) as char else c
  }

  /** Python's `s.lower()` on ASCII letters; every other character is kept. */
  function Lower(s: string): (r: string)
    ensures |r| == |s|
  {
    if s == [] then [] else [LowerChar(s[0])] + Lower(s[1..])
  }

  /** `Lower` maps each character on its own. */
  lemma {:induction false} LowerSpec(s: string)
    ensures forall i :: 0 <= i < |s| ==> Lower(s)[i] == LowerChar(s[i])
  {
    if s != [] {
      LowerSpec(s[1..]);
    }
  }

  /** Lowering a slice is slicing the lowered string. */
  lemma LowerSlice(s: string, a: nat, b: nat)
    requires a <= b <= |s|
    ensures Lower(s)[a..b] == Lower(s[a..b])
  {
    LowerSpec(s);
    LowerSpec(s[a..b]);
  }

  /** Python's `t in s` for strings: `t` occurs somewhere in `s`. */
  predicate Contains(s: string, t: string) {
    exists i :: 0 <= i <= |s| && t <= s[i..]
  }
}
