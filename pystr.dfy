/**
 * The Python string built-ins the core relies on, on strings seen as
 * sequences of code points: `str.isspace`, `str.split()`, `sep.join`,
 * `str.split(sep)`, `str.lower`, `str.strip` and the slice `s[:n]`.
 */
module PyStr {

  /** The characters CPython's `str.isspace` accepts; `split()` and `strip()` cut on exactly these. */
  const SpaceChars: set<char> := {
    '\t', '\n', '\U{0B}', '\U{0C}', '\r', '\U{1C}', '\U{1D}', '\U{1E}', '\U{1F}', ' ',
    '\U{85}', '\U{A0}', '\U{1680}',
    '\U{2000}', '\U{2001}', '\U{2002}', '\U{2003}', '\U{2004}', '\U{2005}',
    '\U{2006}', '\U{2007}', '\U{2008}', '\U{2009}', '\U{200A}',
    '\U{2028}', '\U{2029}', '\U{202F}', '\U{205F}', '\U{3000}'
  }

  predicate IsSpace(c: char) {
    c in SpaceChars
  }

  predicate AllSpace(s: string) {
    forall i :: 0 <= i < |s| ==> IsSpace(s[i])
  }

  /** A word as `split()` produces it: non-empty, without whitespace. */
  predicate IsWord(w: string) {
    w != [] && forall i :: 0 <= i < |w| ==> !IsSpace(w[i])
  }

  /** The length of the longest whitespace-free prefix of `s`. */
  function WordEnd(s: string): (k: nat)
    ensures k <= |s|
    ensures forall i :: 0 <= i < k ==> !IsSpace(s[i])
    ensures k == |s| || IsSpace(s[k])
  {
    if s == [] || IsSpace(s[0]) then 0 else 1 + WordEnd(s[1..])
  }

  /**
   * `s.split()`: the maximal runs of non-whitespace characters of `s`, in
   * order. Each word uses up at least one character, so there are never more
   * words than characters; `WordsAreWords`, `WordsEmptyIff`,
   * `WordsAroundSpace` and `WordsOfSpaceJoin` below say what the words are.
   */
  function Words(s: string): (ws: seq<string>)
    ensures |ws| <= |s|
    decreases |s|
  {
    if s == [] then []
    else if IsSpace(s[0]) then Words(s[1..])
    else
      var k := WordEnd(s);
      [s[..k]] + Words(s[k..])
  }

  /** `sep.join(parts)`: empty for no parts, the part itself for one, and otherwise a text that starts with the first part. */
  function Join(sep: string, parts: seq<string>): (r: string)
    ensures parts == [] ==> r == []
    ensures |parts| == 1 ==> r == parts[0]
    ensures parts != [] ==> parts[0] <= r
  {
    if |parts| == 0 then []
    else if |parts| == 1 then parts[0]
    else
      var tail := Join(sep, parts[1..]);
      assert (parts[0] + sep + tail)[..|parts[0]|] == parts[0];
      parts[0] + sep + tail
  }

  /**
   * `s.split(sep)` for a non-empty separator: the pieces between the
   * leftmost non-overlapping occurrences of `sep`; there is always one more
   * piece than there are occurrences, so never fewer than one.
   */
  function Split(s: string, sep: string): (pieces: seq<string>)
    requires sep != []
    ensures |pieces| >= 1
    decreases |s|
  {
    if |s| < |sep| then [s]
    else if s[..|sep|] == sep then [[]] + Split(s[|sep|..], sep)
    else
      var rest := Split(s[1..], sep);
      [[s[0]] + rest[0]] + rest[1..]
  }

  /** `str.lower` restricted to ASCII letters. */
  function LowerChar(c: char): char {
    if 'A' <= c <= 'Z' then (c as int + 32) as char else c
  }

  /**
   * `s.lower()` on ASCII letters: each upper-case ASCII letter becomes its
   * lower-case partner, no upper-case ASCII letter is left and every other
   * character is kept.
   */
  function Lower(s: string): (r: string)
    ensures |r| == |s|
    ensures forall i :: 0 <= i < |s| && 'A' <= s[i] <= 'Z' ==> r[i] == (s[i] as int + 32) as char
    ensures forall i :: 0 <= i < |s| ==> !('A' <= r[i] <= 'Z')
    ensures forall i :: 0 <= i < |s| && !('A' <= s[i] <= 'Z') ==> r[i] == s[i]
  {
    seq(|s|, i requires 0 <= i < |s| => LowerChar(s[i]))
  }

  /** `s.lstrip()`: drops the leading whitespace, nothing else. */
  function TrimStart(s: string): (r: string)
    ensures |r| <= |s| && r == s[|s| - |r|..]
    ensures AllSpace(s[..|s| - |r|])
    ensures r == [] || !IsSpace(r[0])
    decreases |s|
  {
    if s != [] && IsSpace(s[0]) then
      var r := TrimStart(s[1..]);
      SpaceBeforeSuffix(s, r);
      r
    else s
  }

  /** A suffix of the tail of `s` with only whitespace before it keeps that property in `s` when `s` starts with whitespace. */
  lemma {:induction false} SpaceBeforeSuffix(s: string, r: string)
    requires s != [] && IsSpace(s[0]) && |r| < |s|
    requires r == s[1..][|s| - 1 - |r|..] && AllSpace(s[1..][..|s| - 1 - |r|])
    ensures r == s[|s| - |r|..] && AllSpace(s[..|s| - |r|])
  {
    assert s[|s| - |r|..] == s[1..][|s| - 1 - |r|..];
    forall i | 0 <= i < |s| - |r| ensures IsSpace(s[i]) {
      if i > 0 {
        assert s[i] == s[1..][..|s| - 1 - |r|][i - 1];
      }
    }
  }

  /** `s.rstrip()`: drops the trailing whitespace, nothing else. */
  function TrimEnd(s: string): (r: string)
    ensures |r| <= |s| && r == s[..|r|]
    ensures AllSpace(s[|r|..])
    ensures r == [] || !IsSpace(r[|r| - 1])
    decreases |s|
  {
    if s != [] && IsSpace(s[|s| - 1]) then
      var init := s[..|s| - 1];
      var r := TrimEnd(init);
      SpaceAfterPrefix(s, r);
      r
    else s
  }

  /**
   * `r` is what is left of `s` between its leading and its trailing
   * whitespace: a slice of `s` with only whitespace around it that neither
   * starts nor ends with whitespace.
   */
  predicate StrippedOf(r: string, s: string) {
    && (exists k :: 0 <= k <= |s| - |r| && r == s[k..k + |r|] && AllSpace(s[..k]) && AllSpace(s[k + |r|..]))
    && (r == [] || (!IsSpace(r[0]) && !IsSpace(r[|r| - 1])))
  }

  /** A prefix of `s` minus its last character with only whitespace after it keeps that property in `s` when `s` ends with whitespace. */
  lemma {:induction false} SpaceAfterPrefix(s: string, r: string)
    requires s != [] && IsSpace(s[|s| - 1]) && |r| < |s|
    requires r == s[..|s| - 1][..|r|] && AllSpace(s[..|s| - 1][|r|..])
    ensures r == s[..|r|] && AllSpace(s[|r|..])
  {
    assert s[..|r|] == s[..|s| - 1][..|r|];
    forall i | |r| <= i < |s| ensures IsSpace(s[i]) {
      if i < |s| - 1 {
        assert s[i] == s[..|s| - 1][|r|..][i - |r|];
      }
    }
  }

  /** `s.strip()`. */
  function Strip(s: string): (r: string)
    ensures StrippedOf(r, s)
  {
    TrimBoth(s);
    TrimEnd(TrimStart(s))
  }

  /** Trimming the start and then the end strips `s`. */
  lemma {:induction false} TrimBoth(s: string)
    ensures StrippedOf(TrimEnd(TrimStart(s)), s)
  {
    var front := TrimStart(s);
    var r := TrimEnd(front);
    var k := |s| - |front|;
    assert r == s[k..k + |r|] by {
      assert front == s[k..];
      assert r == front[..|r|];
    }
    assert AllSpace(s[k + |r|..]) by {
      assert s[k + |r|..] == front[|r|..];
    }
    assert r == [] || (!IsSpace(r[0]) && !IsSpace(r[|r| - 1])) by {
      assert r != [] ==> r[0] == front[0];
    }
    StrippedAt(r, s, k);
  }

  /** The slice of `s` at `k`, with whitespace only before and after it and none at its ends, strips `s`. */
  lemma {:induction false} StrippedAt(r: string, s: string, k: nat)
    requires k <= |s| - |r| && r == s[k..k + |r|]
    requires AllSpace(s[..k]) && AllSpace(s[k + |r|..])
    requires r == [] || (!IsSpace(r[0]) && !IsSpace(r[|r| - 1]))
    ensures StrippedOf(r, s)
  {
  }

  /** Stripping keeps only characters of the text it strips. */
  lemma {:induction false} StripKeepsCharacters(s: string)
    ensures forall i :: 0 <= i < |Strip(s)| ==> Strip(s)[i] in s
  {
    var r := Strip(s);
    var k :| 0 <= k <= |s| - |r| && r == s[k..k + |r|];
    SliceKeepsCharacters(r, s, k);
  }

  /** Every character of a slice of `s` is a character of `s`. */
  lemma {:induction false} SliceKeepsCharacters(r: string, s: string, k: nat)
    requires k + |r| <= |s| && r == s[k..k + |r|]
    ensures forall i :: 0 <= i < |r| ==> r[i] in s
  {
    forall i | 0 <= i < |r| ensures r[i] in s {
      assert r[i] == s[k + i];
    }
  }

  /** `s[:n]` for `n >= 0`: the prefix of `s` with `n` characters, or all of `s` when it is shorter. */
  function Prefix(s: string, n: nat): (r: string)
    ensures |r| == if |s| <= n then |s| else n
    ensures r <= s
  {
    if |s| <= n then s else s[..n]
  }

  // ---------------------------------------------------------------------
  // split()

  /** `split()` yields only non-empty words without whitespace. */
  lemma {:induction false} WordsAreWords(s: string)
    ensures forall i :: 0 <= i < |Words(s)| ==> IsWord(Words(s)[i])
    decreases |s|
  {
    if s != [] {
      if IsSpace(s[0]) {
        WordsAreWords(s[1..]);
      } else {
        var k := WordEnd(s);
        WordsAreWords(s[k..]);
        assert Words(s) == [s[..k]] + Words(s[k..]);
      }
    }
  }

  /** `split()` finds no word exactly when the string is all whitespace. */
  lemma {:induction false} WordsEmptyIff(s: string)
    ensures Words(s) == [] <==> AllSpace(s)
    decreases |s|
  {
    if s != [] {
      if IsSpace(s[0]) {
        WordsEmptyIff(s[1..]);
        if AllSpace(s[1..]) {
          forall i | 0 <= i < |s| ensures IsSpace(s[i]) {
            if i > 0 { assert s[i] == s[1..][i - 1]; }
          }
        }
      }
    }
  }

  /** Whitespace after a whitespace-free prefix ends the first word there. */
  lemma {:induction false} WordEndAt(w: string, t: string)
    requires forall i :: 0 <= i < |w| ==> !IsSpace(w[i])
    requires t == [] || IsSpace(t[0])
    ensures WordEnd(w + t) == |w|
    decreases |w|
  {
    if w != [] {
      assert (w + t)[1..] == w[1..] + t;
      WordEndAt(w[1..], t);
    }
  }

  /** A whitespace character separates the words on its two sides. */
  lemma {:induction false} WordsAroundSpace(a: string, c: char, b: string)
    requires IsSpace(c)
    ensures Words(a + [c] + b) == Words(a) + Words(b)
    decreases |a|
  {
    var s := a + [c] + b;
    if a == [] {
      assert s[1..] == b;
    } else if IsSpace(a[0]) {
      assert s[1..] == a[1..] + [c] + b;
      WordsAroundSpace(a[1..], c, b);
    } else {
      var k := WordEnd(a);
      var first := a[..k];
      WordsOfWordStart(a, k);
      assert s == a + ([c] + b);
      FirstWordOfConcat(a, [c] + b);
      assert a[k..] + ([c] + b) == a[k..] + [c] + b;
      WordsAroundSpace(a[k..], c, b);
      assert Words(s) == [first] + (Words(a[k..]) + Words(b));
      assert [first] + (Words(a[k..]) + Words(b)) == ([first] + Words(a[k..])) + Words(b);
    }
  }

  /** Text appended after the end of the first word, or after whitespace, leaves that word's end alone. */
  lemma {:induction false} WordEndOfConcat(a: string, t: string)
    requires WordEnd(a) < |a| || t == [] || IsSpace(t[0])
    ensures WordEnd(a + t) == WordEnd(a)
    decreases |a|
  {
    if a == [] {
      assert a + t == t;
    } else if !IsSpace(a[0]) {
      assert (a + t)[0] == a[0];
      assert (a + t)[1..] == a[1..] + t;
      WordEndOfConcat(a[1..], t);
    } else {
      assert (a + t)[0] == a[0];
    }
  }

  /** A text that starts with a word splits into that word and the words of what follows it. */
  lemma {:induction false} WordsOfWordStart(s: string, k: nat)
    requires s != [] && !IsSpace(s[0]) && k == WordEnd(s)
    ensures Words(s) == [s[..k]] + Words(s[k..])
  {
  }

  /** Appending text that starts with whitespace leaves the first word of a non-blank start alone. */
  lemma {:induction false} FirstWordOfConcat(a: string, t: string)
    requires a != [] && !IsSpace(a[0]) && t != [] && IsSpace(t[0])
    ensures Words(a + t) == [a[..WordEnd(a)]] + Words(a[WordEnd(a)..] + t)
  {
    var k := WordEnd(a);
    var s := a + t;
    assert WordEnd(s) == k by { WordEndOfConcat(a, t); }
    assert Words(s) == [s[..k]] + Words(s[k..]) by {
      assert s[0] == a[0];
      WordsOfWordStart(s, k);
    }
    assert s[..k] == a[..k];
    assert s[k..] == a[k..] + t;
  }

  /** `split()` recovers the words that `" ".join` glued together. */
  lemma {:induction false} WordsOfSpaceJoin(ws: seq<string>)
    requires forall i :: 0 <= i < |ws| ==> IsWord(ws[i])
    ensures Words(Join(" ", ws)) == ws
    decreases |ws|
  {
    if |ws| == 1 {
      WordEndAt(ws[0], []);
      assert ws[0] + [] == ws[0];
      assert ws[0][|ws[0]|..] == [];
    } else if |ws| > 1 {
      var rest := Join(" ", ws[1..]);
      assert Join(" ", ws) == ws[0] + [' '] + rest;
      WordsAroundSpace(ws[0], ' ', rest);
      WordsOfSpaceJoin(ws[1..]);
      WordEndAt(ws[0], []);
      assert ws[0] + [] == ws[0];
      assert ws[0][|ws[0]|..] == [];
      assert Words(ws[0]) == [ws[0]];
    }
  }

  // ---------------------------------------------------------------------
  // join and split(sep)

  /** A character that occurs neither in the separator nor in any part does not occur in the join. */
  lemma {:induction false} JoinAvoids(sep: string, parts: seq<string>, c: char)
    requires c !in sep
    requires forall i :: 0 <= i < |parts| ==> c !in parts[i]
    ensures c !in Join(sep, parts)
    decreases |parts|
  {
    if |parts| > 1 {
      JoinAvoids(sep, parts[1..], c);
    }
  }

  /** Splitting a part that lacks the separator's first character glues it onto the first piece of the rest. */
  lemma {:induction false} SplitAfterPlainPart(p: string, t: string, sep: string)
    requires sep != [] && sep[0] !in p
    ensures Split(p + t, sep) == [p + Split(t, sep)[0]] + Split(t, sep)[1..]
    decreases |p|
  {
    var s := p + t;
    var pieces := Split(t, sep);
    if p == [] {
      assert s == t;
      assert [] + pieces[0] == pieces[0];
      assert pieces == [pieces[0]] + pieces[1..];
    } else if |s| < |sep| {
      assert Split(t, sep) == [t];
    } else {
      assert s[1..] == p[1..] + t;
      SplitAfterPlainPart(p[1..], t, sep);
      SplitGlueStep(p, t, sep);
    }
  }

  /** The step of SplitAfterPlainPart for a non-empty part. */
  lemma {:induction false} SplitGlueStep(p: string, t: string, sep: string)
    requires sep != [] && sep[0] !in p && p != [] && |p + t| >= |sep|
    requires Split(p[1..] + t, sep) == [p[1..] + Split(t, sep)[0]] + Split(t, sep)[1..]
    ensures Split(p + t, sep) == [p + Split(t, sep)[0]] + Split(t, sep)[1..]
  {
    var s := p + t;
    var pieces := Split(t, sep);
    assert s[..|sep|][0] == p[0];
    assert s[1..] == p[1..] + t;
    var rest := Split(s[1..], sep);
    assert Split(s, sep) == [[s[0]] + rest[0]] + rest[1..];
    assert [s[0]] + rest[0] == p + pieces[0];
    assert rest[1..] == pieces[1..];
  }

  /** `sep.join` followed by `split(sep)` gives the parts back when no part holds the separator's first character. */
  lemma {:induction false} SplitJoin(parts: seq<string>, sep: string)
    requires sep != [] && |parts| >= 1
    requires forall i :: 0 <= i < |parts| ==> sep[0] !in parts[i]
    ensures Split(Join(sep, parts), sep) == parts
    decreases |parts|
  {
    if |parts| == 1 {
      SplitAfterPlainPart(parts[0], [], sep);
      assert parts[0] + [] == parts[0];
    } else {
      var rest := Join(sep, parts[1..]);
      assert Join(sep, parts) == parts[0] + (sep + rest);
      SplitAfterPlainPart(parts[0], sep + rest, sep);
      assert (sep + rest)[..|sep|] == sep && (sep + rest)[|sep|..] == rest;
      assert Split(sep + rest, sep) == [[]] + Split(rest, sep);
      SplitJoin(parts[1..], sep);
      assert parts[0] + [] == parts[0];
      assert parts == [parts[0]] + parts[1..];
    }
  }

  /** Joining a part in front of a non-empty list puts one separator between them. */
  lemma {:induction false} JoinCons(sep: string, x: string, parts: seq<string>)
    requires parts != []
    ensures Join(sep, [x] + parts) == x + sep + Join(sep, parts)
  {
    assert ([x] + parts)[1..] == parts;
  }

  /** `split(sep)` followed by `sep.join` gives the string back, whatever it holds. */
  lemma {:induction false} JoinSplit(s: string, sep: string)
    requires sep != []
    ensures Join(sep, Split(s, sep)) == s
    decreases |s|
  {
    if |s| < |sep| {
    } else if s[..|sep|] == sep {
      JoinSplit(s[|sep|..], sep);
      JoinSplitAtSep(s, sep);
    } else {
      var rest := Split(s[1..], sep);
      JoinSplit(s[1..], sep);
      JoinSplitStep(s, sep, rest);
    }
  }

  /** The step of JoinSplit where `s` starts with the separator. */
  lemma {:induction false} JoinSplitAtSep(s: string, sep: string)
    requires sep != [] && |s| >= |sep| && s[..|sep|] == sep
    requires Join(sep, Split(s[|sep|..], sep)) == s[|sep|..]
    ensures Join(sep, Split(s, sep)) == s
  {
    var pieces := Split(s[|sep|..], sep);
    assert Split(s, sep) == [[]] + pieces;
    JoinCons(sep, [], pieces);
    assert s == sep + s[|sep|..];
  }

  /** The step of JoinSplit where `s` does not start with the separator. */
  lemma {:induction false} JoinSplitStep(s: string, sep: string, rest: seq<string>)
    requires sep != [] && |s| >= |sep| && s[..|sep|] != sep
    requires rest == Split(s[1..], sep) && Join(sep, rest) == s[1..]
    ensures Join(sep, Split(s, sep)) == s
  {
    assert Split(s, sep) == [[s[0]] + rest[0]] + rest[1..];
    JoinGlueFront(sep, s[0], rest);
    assert s == [s[0]] + s[1..];
  }

  /** Prepending a character to the first part prepends it to the join. */
  lemma {:induction false} JoinGlueFront(sep: string, c: char, parts: seq<string>)
    requires parts != []
    ensures Join(sep, [[c] + parts[0]] + parts[1..]) == [c] + Join(sep, parts)
  {
    var first := [c] + parts[0];
    if |parts| > 1 {
      var tail := Join(sep, parts[1..]);
      JoinPeel(sep, parts);
      JoinCons(sep, first, parts[1..]);
      assert first + sep + tail == [c] + (parts[0] + sep + tail);
    } else {
      assert [first] + parts[1..] == [first];
    }
  }

  /** The join of two or more parts starts with the first part and a separator. */
  lemma {:induction false} JoinPeel(sep: string, parts: seq<string>)
    requires |parts| > 1
    ensures Join(sep, parts) == parts[0] + sep + Join(sep, parts[1..])
  {
  }

  // ---------------------------------------------------------------------
  // lower() and strip()

  /** `lower()` works character by character, and leaves whitespace alone. */
  lemma {:induction false} LowerConcat(a: string, s: string, b: string)
    requires AllSpace(a) && AllSpace(b)
    ensures Lower(a + s + b) == a + Lower(s) + b
  {
    assert forall c :: IsSpace(c) ==> !('A' <= c <= 'Z');
  }

  /** Leading whitespace does not reach past `lstrip()`. */
  lemma {:induction false} TrimStartSpacePrefix(a: string, s: string)
    requires AllSpace(a)
    ensures TrimStart(a + s) == TrimStart(s)
    decreases |a|
  {
    if a != [] {
      assert (a + s)[0] == a[0] && IsSpace(a[0]);
      assert (a + s)[1..] == a[1..] + s;
      assert AllSpace(a[1..]);
      TrimStartSpacePrefix(a[1..], s);
    } else {
      assert a + s == s;
    }
  }

  /** Trailing whitespace does not reach past `rstrip()`. */
  lemma {:induction false} TrimEndSpaceSuffix(s: string, b: string)
    requires AllSpace(b)
    ensures TrimEnd(s + b) == TrimEnd(s)
    decreases |b|
  {
    if b != [] {
      var n := |b| - 1;
      assert (s + b)[..|s + b| - 1] == s + b[..n];
      TrimEndSpaceSuffix(s, b[..n]);
    } else {
      assert s + b == s;
    }
  }

  /** `lstrip()` of a string followed by whitespace keeps that whitespace, unless nothing is left. */
  lemma {:induction false} TrimStartSpaceSuffix(s: string, b: string)
    requires AllSpace(b)
    ensures TrimStart(s + b) == if TrimStart(s) == [] then [] else TrimStart(s) + b
    decreases |s|
  {
    if s == [] {
      assert s + b == b;
      TrimStartSpacePrefix(b, []);
      assert b + [] == b;
    } else if IsSpace(s[0]) {
      assert (s + b)[1..] == s[1..] + b;
      TrimStartSpaceSuffix(s[1..], b);
    }
  }

  /** `strip()` ignores whitespace added on either side. */
  lemma {:induction false} StripOuterSpace(a: string, s: string, b: string)
    requires AllSpace(a) && AllSpace(b)
    ensures Strip(a + s + b) == Strip(s)
  {
    assert a + s + b == a + (s + b);
    TrimStartSpacePrefix(a, s + b);
    assert TrimStart(a + s + b) == TrimStart(s + b);
    TrimStartSpaceSuffix(s, b);
    var front := TrimStart(s);
    if front == [] {
      assert TrimStart(a + s + b) == [];
    } else {
      assert TrimStart(a + s + b) == front + b;
      TrimEndSpaceSuffix(front, b);
    }
  }
}
