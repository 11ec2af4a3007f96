/**
 * The Python string operations the bot relies on: `str.strip()`,
 * `str.split()` with no argument and `sep.join(parts)`, together with
 * splitting on a separator character, which reads joined text back.
 */
module PyText {
  import opened Wrappers

  /** The characters for which Python's `str.isspace()` holds. */
  predicate IsSpace(c: char) {
    var n := c as int;
    || 9 <= n <= 13 || 28 <= n <= 32 || n == 0x85 || n == 0xA0 || n == 0x1680
    || 0x2000 <= n <= 0x200A || n == 0x2028 || n == 0x2029 || n == 0x202F || n == 0x205F || n == 0x3000
  }

  predicate NoSpace(s: string) {
    forall i :: 0 <= i < |s| ==> !IsSpace(s[i])
  }

  predicate AllSpace(s: string) {
    forall i :: 0 <= i < |s| ==> IsSpace(s[i])
  }

  /** `s.lstrip()`: the suffix of `s` left after dropping leading blanks. */
  function TrimStart(s: string): (r: string)
    ensures |r| <= |s| && r == s[|s| - |r|..]
    ensures forall k :: 0 <= k < |s| - |r| ==> IsSpace(s[k])
    ensures r == [] || !IsSpace(r[0])
  {
    if s == [] || !IsSpace(s[0]) then s else TrimStart(s[1..])
  }

  /** `s.rstrip()`: the prefix of `s` left after dropping trailing blanks. */
  function TrimEnd(s: string): (r: string)
    ensures |r| <= |s| && r == s[..|r|]
    ensures forall k :: |r| <= k < |s| ==> IsSpace(s[k])
    ensures r == [] || !IsSpace(r[|r| - 1])
  {
    if s == [] || !IsSpace(s[|s| - 1]) then s else TrimEnd(s[..|s| - 1])
  }

  /**
   * `r` is `s` with its leading and trailing blanks removed, given that the
   * leading blanks are the first `i` characters: `r` is the slice of `s`
   * starting at `i`, it neither starts nor ends with a blank, everything of
   * `s` outside it is blank, and it is empty exactly when `s` is all blanks.
   */
  ghost predicate StrippedAt(s: string, i: int, r: string) {
    && 0 <= i && i + |r| <= |s| && r == s[i..i + |r|]
    && (forall k :: 0 <= k < |s| && !(i <= k < i + |r|) ==> IsSpace(s[k]))
    && (r == [] || (!IsSpace(r[0]) && !IsSpace(r[|r| - 1])))
    && (r == [] <==> AllSpace(s))
  }

  /** `r` is `s.strip()`: `StrippedAt`, with the slice starting where `lstrip` stops. */
  ghost predicate StrippedFrom(s: string, r: string) {
    StrippedAt(s, |s| - |TrimStart(s)|, r)
  }

  /** `s.strip()`. */
  function Strip(s: string): (r: string)
    ensures StrippedFrom(s, r)
  {
    var t := TrimStart(s);
    var r := TrimEnd(t);
    StripShape(s, t, r);
    r
  }

  /** Dropping leading blanks into `t`, then trailing blanks of `t` into `r`, strips `s`. */
  lemma StripShape(s: string, t: string, r: string)
    requires |t| <= |s| && t == s[|s| - |t|..]
    requires forall k :: 0 <= k < |s| - |t| ==> IsSpace(s[k])
    requires t == [] || !IsSpace(t[0])
    requires |r| <= |t| && r == t[..|r|]
    requires forall k :: |r| <= k < |t| ==> IsSpace(t[k])
    requires r == [] || !IsSpace(r[|r| - 1])
    ensures StrippedAt(s, |s| - |t|, r)
  {
    SliceInside(s, t, r);
    BlanksOutside(s, t, r);
    if r != [] {
      assert r[0] == t[0];
      assert s[|s| - |t|] == r[0];
      assert !AllSpace(s);
    } else {
      assert AllSpace(s);
    }
  }

  /** A prefix of a suffix is a slice. */
  lemma SliceInside(s: string, t: string, r: string)
    requires |t| <= |s| && t == s[|s| - |t|..]
    requires |r| <= |t| && r == t[..|r|]
    ensures r == s[|s| - |t|..|s| - |t| + |r|]
  {
  }

  /** Around a prefix `r` of a suffix `t`, blanks before `t` and blanks after `r` in `t` are all of `s` outside `r`. */
  lemma BlanksOutside(s: string, t: string, r: string)
    requires |t| <= |s| && t == s[|s| - |t|..]
    requires |r| <= |t| && r == t[..|r|]
    requires forall k :: 0 <= k < |s| - |t| ==> IsSpace(s[k])
    requires forall k :: |r| <= k < |t| ==> IsSpace(t[k])
    ensures forall k :: 0 <= k < |s| && !(|s| - |t| <= k < |s| - |t| + |r|) ==> IsSpace(s[k])
  {
    var i := |s| - |t|;
    forall k | i + |r| <= k < |s| ensures IsSpace(s[k]) {
      assert s[k] == t[k - i];
    }
  }

  /** The longest prefix of `s` without a blank. */
  function Word(s: string): (w: string)
    ensures |w| <= |s| && w == s[..|w|] && NoSpace(w)
    ensures |w| < |s| ==> IsSpace(s[|w|])
    ensures s != [] && !IsSpace(s[0]) ==> |w| >= 1
  {
    if s == [] || IsSpace(s[0]) then [] else [s[0]] + Word(s[1..])
  }

  /** `s.split()`: the maximal runs of non-blank characters, in order. */
  function Tokens(s: string): (r: seq<string>)
    ensures forall k :: 0 <= k < |r| ==> r[k] != [] && NoSpace(r[k])
    decreases |s|
  {
    var t := TrimStart(s);
    if t == [] then [] else
      var w := Word(t);
      assert |t[|w|..]| < |s|;
      var rest := Tokens(t[|w|..]);
      ConsWord(w, rest);
      [w] + rest
  }

  lemma ConsWord(w: string, rest: seq<string>)
    requires w != [] && NoSpace(w)
    requires forall k :: 0 <= k < |rest| ==> rest[k] != [] && NoSpace(rest[k])
    ensures forall k :: 0 <= k < |[w] + rest| ==> ([w] + rest)[k] != [] && NoSpace(([w] + rest)[k])
  {
  }

  /** `s.split()` is empty exactly when `s` is all blanks. */
  lemma TokensEmpty(s: string)
    ensures Tokens(s) == [] <==> AllSpace(s)
  {
    var t := TrimStart(s);
    if t != [] {
      assert s[|s| - |t|] == t[0];
    }
  }

  /** The characters of `s` that are not blanks, in order. */
  function NonBlank(s: string): string
  {
    if s == [] then [] else (if IsSpace(s[0]) then [] else [s[0]]) + NonBlank(s[1..])
  }

  /** The words of a list written one after another. */
  function Concat(ws: seq<string>): string
  {
    if ws == [] then [] else ws[0] + Concat(ws[1..])
  }

  /** The words of `s.split()` are all of the text's non-blank characters, in order. */
  lemma {:induction false} TokensCoverText(s: string)
    ensures Concat(Tokens(s)) == NonBlank(s)
    decreases |s|
  {
    var t := TrimStart(s);
    NonBlankAfterBlanks(s, t);
    if t != [] {
      var w := Word(t);
      var rest := t[|w|..];
      TokensCoverText(rest);
      NonBlankOfWordThen(t, w, rest, Tokens(rest));
    }
  }

  lemma NonBlankAfterBlanks(s: string, t: string)
    requires |t| <= |s| && t == s[|s| - |t|..]
    requires forall k :: 0 <= k < |s| - |t| ==> IsSpace(s[k])
    ensures NonBlank(s) == NonBlank(t)
  {
    var p := s[..|s| - |t|];
    assert s == p + t;
    NonBlankAppend(p, t);
    NonBlankOfBlanks(p);
  }

  lemma NonBlankOfWordThen(t: string, w: string, rest: string, ws: seq<string>)
    requires |w| <= |t| && w == t[..|w|] && rest == t[|w|..] && NoSpace(w)
    requires Concat(ws) == NonBlank(rest)
    ensures Concat([w] + ws) == NonBlank(t)
  {
    assert t == w + rest;
    NonBlankAppend(w, rest);
    NonBlankOfWord(w);
    assert ([w] + ws)[0] == w && ([w] + ws)[1..] == ws;
  }

  lemma {:induction false} NonBlankAppend(a: string, b: string)
    ensures NonBlank(a + b) == NonBlank(a) + NonBlank(b)
  {
    if a != [] {
      assert (a + b)[0] == a[0] && (a + b)[1..] == a[1..] + b;
      NonBlankAppend(a[1..], b);
    } else {
      assert a + b == b;
    }
  }

  lemma {:induction false} NonBlankOfBlanks(s: string)
    requires AllSpace(s)
    ensures NonBlank(s) == []
  {
    if s != [] {
      NonBlankOfBlanks(s[1..]);
    }
  }

  lemma {:induction false} NonBlankOfWord(s: string)
    requires NoSpace(s)
    ensures NonBlank(s) == s
  {
    if s != [] {
      NonBlankOfWord(s[1..]);
      assert s == [s[0]] + s[1..];
    }
  }

  lemma {:induction false} WordOfPrefix(a: string, rest: string)
    requires NoSpace(a)
    requires rest == [] || IsSpace(rest[0])
    ensures Word(a + rest) == a
  {
    if a != [] {
      assert (a + rest)[1..] == a[1..] + rest;
      WordOfPrefix(a[1..], rest);
    } else {
      assert a + rest == rest;
    }
  }

  lemma TokensOfBlankThenWord(b: string)
    requires b != [] && NoSpace(b)
    ensures Tokens(" " + b) == [b]
  {
    var s := " " + b;
    assert IsSpace(s[0]);
    assert s[1..] == b;
    assert TrimStart(s) == b;
    WordOfPrefix(b, []);
    assert b + [] == b;
    assert Word(b) == b;
    assert b[|b|..] == [];
    assert Tokens([]) == [];
  }

  /** Two blank-free words separated by one space split into exactly those two words. */
  lemma TokensOfTwoWords(a: string, b: string)
    requires a != [] && NoSpace(a)
    requires b != [] && NoSpace(b)
    ensures Tokens(a + " " + b) == [a, b]
  {
    assert a + " " + b == a + (" " + b);
    TokensOfWordThen(a, " " + b);
    TokensOfBlankThenWord(b);
  }

  /** A blank-free word followed by a blank or by nothing is the first word. */
  lemma TokensOfWordThen(w: string, rest: string)
    requires w != [] && NoSpace(w)
    requires rest == [] || IsSpace(rest[0])
    ensures Tokens(w + rest) == [w] + Tokens(rest)
  {
    var s := w + rest;
    assert s[0] == w[0];
    assert TrimStart(s) == s;
    WordOfPrefix(w, rest);
    assert s[|w|..] == rest;
  }

  /** The index of the first `c` in `s`, if any. */
  function IndexOf(s: string, c: char): (r: Option<nat>)
    ensures r.Some? ==> r.value < |s| && s[r.value] == c && c !in s[..r.value]
    ensures r.None? ==> c !in s
  {
    if s == [] then None
    else if s[0] == c then Some(0)
    else
      match IndexOf(s[1..], c)
      case None => None
      case Some(i) =>
        assert s[..i + 1] == [s[0]] + s[1..][..i];
        Some(i + 1)
  }

  /** `s.split(sep)` for a one-character separator. */
  function SplitOn(s: string, sep: char): (r: seq<string>)
    ensures |r| >= 1
    ensures forall k :: 0 <= k < |r| ==> sep !in r[k]
    decreases |s|
  {
    match IndexOf(s, sep)
    case None => [s]
    case Some(i) => [s[..i]] + SplitOn(s[i + 1..], sep)
  }

  /** `sep.join(parts)` for a one-character separator. */
  function Join(parts: seq<string>, sep: char): (r: string)
    ensures |parts| >= 1 ==> |r| >= |parts[0]| && r[..|parts[0]|] == parts[0]
    ensures |parts| >= 2 ==> |r| > |parts[0]| && r[|parts[0]|] == sep
  {
    if |parts| == 0 then ""
    else if |parts| == 1 then parts[0]
    else parts[0] + [sep] + Join(parts[1..], sep)
  }

  /** Splitting a join gives the parts back when no part contains the separator. */
  lemma {:induction false} SplitJoin(parts: seq<string>, sep: char)
    requires |parts| >= 1
    requires forall k :: 0 <= k < |parts| ==> sep !in parts[k]
    ensures SplitOn(Join(parts, sep), sep) == parts
  {
    if |parts| > 1 {
      var rest := Join(parts[1..], sep);
      var s := parts[0] + [sep] + rest;
      assert s[..|parts[0]|] == parts[0];
      assert IndexOf(s, sep) == Some(|parts[0]|) by {
        assert s[|parts[0]|] == sep;
        IndexOfFirst(s, sep, |parts[0]|);
      }
      assert s[|parts[0]| + 1..] == rest;
      SplitJoin(parts[1..], sep);
    }
  }

  lemma {:induction false} IndexOfFirst(s: string, c: char, i: nat)
    requires i < |s| && s[i] == c && c !in s[..i]
    ensures IndexOf(s, c) == Some(i)
  {
    if i > 0 {
      assert s[0] in s[..i];
      assert s[1..][..i - 1] == s[1..i];
      assert forall x :: x in s[1..i] ==> x in s[..i];
      IndexOfFirst(s[1..], c, i - 1);
    }
  }
}
