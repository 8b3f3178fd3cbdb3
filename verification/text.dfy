/** The Python string operations the scripts rely on, over strings as
    sequences of code points: `str.strip`, `str.replace`, `str.split`,
    `re.split` on a character class, `str.join`, `str.endswith`, and the
    character classes `isspace`, `isdigit` and `isalnum`. */
module Text {

  // ---------------------------------------------------------------------------
  // Character classes
  // ---------------------------------------------------------------------------

  /** Python `str.isspace` for one character (the complete list). */
  predicate IsSpace(c: char)
  {
    || ('\t' <= c <= '\r')
    || ('\U{1C}' <= c <= ' ')
    || c == '\U{85}' || c == '\U{A0}' || c == '\U{1680}'
    || ('\U{2000}' <= c <= '\U{200A}')
    || c == '\U{2028}' || c == '\U{2029}' || c == '\U{202F}' || c == '\U{205F}'
    || c == '\U{3000}'
  }

  /** Python `str.isdigit` for one character, exact on Latin-1
      (ASCII digits and the superscripts one, two and three). */
  predicate IsDigit(c: char)
  {
    ('0' <= c <= '9') || c == '\U{B2}' || c == '\U{B3}' || c == '\U{B9}'
  }

  /** Python `str.isalnum` for one character, exact on Latin-1: ASCII
      letters and digits, the Latin-1 letters (including æ, ø and å),
      the superscript digits, the ordinal indicators, micro sign and the
      vulgar fractions. */
  predicate IsAlnum(c: char)
  {
    || IsDigit(c)
    || ('A' <= c <= 'Z') || ('a' <= c <= 'z')
    || c == '\U{AA}' || c == '\U{B5}' || c == '\U{BA}'
    || ('\U{BC}' <= c <= '\U{BE}')
    || ('\U{C0}' <= c <= '\U{D6}') || ('\U{D8}' <= c <= '\U{F6}') || ('\U{F8}' <= c <= '\U{FF}')
  }

  /** No character of `s` is in `chars`. */
  predicate Avoids(s: string, chars: set<char>)
  {
    forall c :: c in s ==> c !in chars
  }

  // ---------------------------------------------------------------------------
  // str.strip()
  // ---------------------------------------------------------------------------

  /** Leading whitespace removed. */
  function TrimStart(s: string): (r: string)
    ensures |r| <= |s| && r == s[|s| - |r|..]
    ensures r == [] || !IsSpace(r[0])
    ensures forall i :: 0 <= i < |s| - |r| ==> IsSpace(s[i])
  {
    if s != [] && IsSpace(s[0]) then TrimStart(s[1..]) else s
  }

  /** Trailing whitespace removed. */
  function TrimEnd(s: string): (r: string)
    ensures |r| <= |s| && r == s[..|r|]
    ensures r == [] || !IsSpace(r[|r| - 1])
    ensures forall i :: |r| <= i < |s| ==> IsSpace(s[i])
  {
    if s != [] && IsSpace(s[|s| - 1]) then TrimEnd(s[..|s| - 1]) else s
  }

  /** Python `s.strip()`: whitespace removed at both ends. */
  function Trim(s: string): string
  {
    TrimEnd(TrimStart(s))
  }

  /** `strip()` keeps only characters of `s`, neither end of its result is
      whitespace, and the result is empty exactly when `s` is all
      whitespace. */
  lemma TrimSpec(s: string)
    ensures var r := Trim(s);
            && (r == [] || (!IsSpace(r[0]) && !IsSpace(r[|r| - 1])))
            && (forall c :: c in r ==> c in s)
            && (r == [] <==> forall i :: 0 <= i < |s| ==> IsSpace(s[i]))
  {
    var r := Trim(s);
    assert forall c :: c in r ==> c in TrimStart(s);
  }

  /** A string without whitespace at either end is its own `strip()`. */
  lemma TrimOfTrimmed(s: string)
    requires s == [] || (!IsSpace(s[0]) && !IsSpace(s[|s| - 1]))
    ensures Trim(s) == s
  {
  }

  /** `strip()` is idempotent. */
  lemma TrimIdempotent(s: string)
    ensures Trim(Trim(s)) == Trim(s)
  {
    TrimOfTrimmed(Trim(s));
  }

  // ---------------------------------------------------------------------------
  // str.replace(old, new) for a non-empty `old`
  // ---------------------------------------------------------------------------

  /** `pat` occurs in `s` at index `i`. */
  predicate OccursAt(s: string, pat: string, i: int)
  {
    0 <= i && i + |pat| <= |s| && s[i..i + |pat|] == pat
  }

  /** `pat` occurs somewhere in `s`. */
  predicate Occurs(s: string, pat: string)
  {
    exists i :: 0 <= i <= |s| && OccursAt(s, pat, i)
  }

  /** Python `s.replace(pat, rep)`: a single left-to-right pass replacing
      non-overlapping occurrences of `pat`. */
  function ReplaceAll(s: string, pat: string, rep: string): string
    requires pat != []
    decreases |s|
  {
    if s == [] then []
    else if pat <= s then rep + ReplaceAll(s[|pat|..], pat, rep)
    else [s[0]] + ReplaceAll(s[1..], pat, rep)
  }

  /** An occurrence in a suffix is an occurrence in the whole string. */
  lemma OccursInSuffix(s: string, pat: string, k: nat, i: int)
    requires k <= |s|
    requires OccursAt(s[k..], pat, i)
    ensures OccursAt(s, pat, i + k)
  {
    assert s[k..][i..i + |pat|] == s[i + k..i + k + |pat|];
  }

  /** A string without occurrences does not start with one, and neither
      does any of its suffixes. */
  lemma NoOccurrenceSplits(s: string, pat: string)
    requires s != []
    requires !Occurs(s, pat)
    ensures !(pat <= s)
    ensures !Occurs(s[1..], pat)
  {
    if pat <= s {
      assert s[0..|pat|] == pat;
      assert OccursAt(s, pat, 0);
    }
    forall i | 0 <= i <= |s[1..]| && OccursAt(s[1..], pat, i)
      ensures false
    {
      OccursInSuffix(s, pat, 1, i);
    }
  }

  /** Replacing leaves a string without occurrences unchanged. */
  lemma {:induction false} ReplaceAllIdentity(s: string, pat: string, rep: string)
    requires pat != []
    requires !Occurs(s, pat)
    ensures ReplaceAll(s, pat, rep) == s
    decreases |s|
  {
    if s != [] {
      NoOccurrenceSplits(s, pat);
      ReplaceAllIdentity(s[1..], pat, rep);
      ReplaceAllAtSkip(s, pat, rep);
      assert [s[0]] + s[1..] == s;
    }
  }

  /** The first character of a pass over a non-empty string. */
  lemma ReplaceAllHead(s: string, pat: string, rep: string)
    requires pat != [] && rep != [] && s != []
    ensures ReplaceAll(s, pat, rep) != []
    ensures ReplaceAll(s, pat, rep)[0] == if pat <= s then rep[0] else s[0]
  {
  }

  /** If the output starts with `w`, a string sharing no character with a
      non-empty `rep`, then so did the input: such a prefix cannot have been
      produced by a replacement. */
  lemma {:induction false} ReplaceAllKeepsForeignPrefix(s: string, pat: string, rep: string, w: string)
    requires pat != [] && rep != []
    requires forall c :: c in w ==> c !in rep
    requires w <= ReplaceAll(s, pat, rep)
    ensures w <= s
    decreases |s|
  {
    if w != [] && s != [] {
      assert w[0] in w;
      ReplaceAllHead(s, pat, rep);
      if pat <= s {
        assert false;
      } else {
        var t := ReplaceAll(s[1..], pat, rep);
        assert w[1..] <= t;
        ReplaceAllKeepsForeignPrefix(s[1..], pat, rep, w[1..]);
      }
    }
  }

  /** A pass that replaces `pat` by a non-empty string sharing no character
      with it leaves no occurrence of `pat` behind. */
  lemma {:induction false} ReplaceAllRemoves(s: string, pat: string, rep: string)
    requires pat != [] && rep != []
    requires forall c :: c in pat ==> c !in rep
    ensures !Occurs(ReplaceAll(s, pat, rep), pat)
    decreases |s|
  {
    if s == [] {
    } else if pat <= s {
      ReplaceAllAtMatch(s, pat, rep);
      ReplaceAllRemoves(s[|pat|..], pat, rep);
      NoOccurrenceAfterReplacement(rep, ReplaceAll(s[|pat|..], pat, rep), pat);
    } else {
      var out, t := ReplaceAll(s, pat, rep), ReplaceAll(s[1..], pat, rep);
      ReplaceAllAtSkip(s, pat, rep);
      ReplaceAllRemoves(s[1..], pat, rep);
      forall i | 0 <= i <= |out| && OccursAt(out, pat, i)
        ensures false
      {
        if i == 0 {
          assert pat <= out;
          ReplaceAllKeepsForeignPrefix(s, pat, rep, pat);
        } else {
          OccursPastPrefix([s[0]], t, pat, i);
        }
      }
    }
  }

  /** An occurrence past a prefix is an occurrence in what follows it. */
  lemma OccursPastPrefix(p: string, t: string, pat: string, i: int)
    requires |p| <= i && OccursAt(p + t, pat, i)
    ensures OccursAt(t, pat, i - |p|)
  {
    assert (p + t)[i..i + |pat|] == t[i - |p|..i - |p| + |pat|];
  }

  /** A replacement sharing no character with `pat`, in front of a string
      without occurrences, starts none. */
  lemma NoOccurrenceAfterReplacement(rep: string, t: string, pat: string)
    requires pat != [] && rep != []
    requires forall c :: c in pat ==> c !in rep
    requires !Occurs(t, pat)
    ensures !Occurs(rep + t, pat)
  {
    var out := rep + t;
    forall i | 0 <= i <= |out| && OccursAt(out, pat, i)
      ensures false
    {
      if i < |rep| {
        NoOccurrenceInReplacement(rep, t, pat, i);
      } else {
        OccursPastPrefix(rep, t, pat, i);
      }
    }
  }

  /** No occurrence starts inside a replacement sharing no character with
      `pat`. */
  lemma NoOccurrenceInReplacement(rep: string, t: string, pat: string, i: int)
    requires pat != [] && 0 <= i < |rep|
    requires forall c :: c in pat ==> c !in rep
    ensures !OccursAt(rep + t, pat, i)
  {
    var out := rep + t;
    assert out[i] == rep[i] && rep[i] in rep && pat[0] in pat;
    if i + |pat| <= |out| {
      assert out[i..i + |pat|][0] == out[i];
    }
  }

  /** An occurrence at the start of `a + [c] + b`, for a `c` not in `pat`,
      lies within `a`. */
  lemma OccurrenceBeforeSeparator(a: string, c: char, b: string, pat: string)
    requires c !in pat
    requires pat <= a + [c] + b
    ensures pat <= a
  {
    var s := a + [c] + b;
    assert s[|a|] == c;
    assert forall j :: 0 <= j < |pat| ==> pat[j] == s[j];
    if |pat| > |a| {
      assert false;
    }
    assert a[..|pat|] == s[..|pat|];
  }

  /** A whole occurrence standing between two separators is replaced, and
      each side is replaced on its own. */
  lemma ReplaceAllBetween(a: string, c: char, b: string, pat: string, rep: string)
    requires pat != [] && c !in pat
    ensures ReplaceAll(a + [c] + pat + [c] + b, pat, rep) == ReplaceAll(a, pat, rep) + [c] + rep + [c] + ReplaceAll(b, pat, rep)
  {
    var rest := pat + [c] + b;
    assert a + [c] + pat + [c] + b == a + [c] + rest;
    ReplaceAllAcross(a, c, rest, pat, rep);
    ReplaceAllAtMatch(rest, pat, rep);
    assert rest[|pat|..] == [] + [c] + b;
    ReplaceAllAcross([], c, b, pat, rep);
    assert ReplaceAll([], pat, rep) == [];
    Regroup5(ReplaceAll(a, pat, rep), [c], rep, [c], ReplaceAll(b, pat, rep));
  }

  /** Regrouping five concatenated strings from right- to left-nested. */
  lemma Regroup5(p: string, q: string, r: string, t: string, u: string)
    ensures p + q + (r + ([] + t + u)) == p + q + r + t + u
  {
  }

  /** A character that is not part of `pat` separates the pass into two
      independent passes: no occurrence can span it. */
  lemma {:induction false} ReplaceAllAcross(a: string, c: char, b: string, pat: string, rep: string)
    requires pat != []
    requires c !in pat
    ensures ReplaceAll(a + [c] + b, pat, rep) == ReplaceAll(a, pat, rep) + [c] + ReplaceAll(b, pat, rep)
    decreases |a|
  {
    if a == [] {
      AcrossFromEmpty(a, c, b, pat, rep);
    } else if pat <= a {
      ReplaceAllAcross(a[|pat|..], c, b, pat, rep);
      AcrossAfterMatch(a, c, b, pat, rep);
    } else {
      ReplaceAllAcross(a[1..], c, b, pat, rep);
      AcrossAfterSkip(a, c, b, pat, rep);
    }
  }

  /** The pass over `[c] + b` keeps `c`, which starts no occurrence. */
  lemma AcrossFromSeparator(c: char, b: string, pat: string, rep: string)
    requires pat != [] && c !in pat
    ensures ReplaceAll([c] + b, pat, rep) == [c] + ReplaceAll(b, pat, rep)
  {
    assert pat[0] in pat && ([c] + b)[0] == c;
    assert ([c] + b)[1..] == b;
  }

  /** The base case: an empty `a`. */
  lemma AcrossFromEmpty(a: string, c: char, b: string, pat: string, rep: string)
    requires pat != [] && c !in pat && a == []
    ensures ReplaceAll(a + [c] + b, pat, rep) == ReplaceAll(a, pat, rep) + [c] + ReplaceAll(b, pat, rep)
  {
    AcrossFromSeparator(c, b, pat, rep);
    assert a + [c] + b == [c] + b;
  }

  /** The pass over a string that starts with `pat` replaces it first. */
  lemma ReplaceAllAtMatch(x: string, pat: string, rep: string)
    requires pat != [] && pat <= x
    ensures ReplaceAll(x, pat, rep) == rep + ReplaceAll(x[|pat|..], pat, rep)
  {
  }

  /** The pass over a string that does not start with `pat` keeps its first
      character. */
  lemma ReplaceAllAtSkip(x: string, pat: string, rep: string)
    requires pat != [] && x != [] && !(pat <= x)
    ensures ReplaceAll(x, pat, rep) == [x[0]] + ReplaceAll(x[1..], pat, rep)
  {
  }

  /** One step of the pass over `a + [c] + b` when `a` starts with `pat`. */
  lemma AcrossAfterMatch(a: string, c: char, b: string, pat: string, rep: string)
    requires pat != [] && pat <= a
    requires ReplaceAll(a[|pat|..] + [c] + b, pat, rep) == ReplaceAll(a[|pat|..], pat, rep) + [c] + ReplaceAll(b, pat, rep)
    ensures ReplaceAll(a + [c] + b, pat, rep) == ReplaceAll(a, pat, rep) + [c] + ReplaceAll(b, pat, rep)
  {
    var rest := a[|pat|..];
    var whole := a + [c] + b;
    SliceAround(a, c, b, |pat|);
    ReplaceAllAtMatch(whole, pat, rep);
    ReplaceAllAtMatch(a, pat, rep);
    var x, y := ReplaceAll(rest, pat, rep), ReplaceAll(b, pat, rep);
    Regroup(rep, x, c, y);
  }

  /** One step of the pass over `a + [c] + b` when `a` does not start with
      `pat`. */
  lemma AcrossAfterSkip(a: string, c: char, b: string, pat: string, rep: string)
    requires pat != [] && c !in pat && a != [] && !(pat <= a)
    requires ReplaceAll(a[1..] + [c] + b, pat, rep) == ReplaceAll(a[1..], pat, rep) + [c] + ReplaceAll(b, pat, rep)
    ensures ReplaceAll(a + [c] + b, pat, rep) == ReplaceAll(a, pat, rep) + [c] + ReplaceAll(b, pat, rep)
  {
    var rest := a[1..];
    var whole := a + [c] + b;
    if pat <= whole {
      OccurrenceBeforeSeparator(a, c, b, pat);
    }
    SliceAround(a, c, b, 1);
    ReplaceAllAtSkip(whole, pat, rep);
    ReplaceAllAtSkip(a, pat, rep);
    var x, y := ReplaceAll(rest, pat, rep), ReplaceAll(b, pat, rep);
    Regroup([a[0]], x, c, y);
  }

  /** Slicing `a + [c] + b` within `a`. */
  lemma SliceAround(a: string, c: char, b: string, k: nat)
    requires k <= |a|
    ensures (a + [c] + b)[..k] == a[..k]
    ensures (a + [c] + b)[k..] == a[k..] + [c] + b
  {
  }

  /** Concatenation around a single character regroups freely. */
  lemma Regroup(p: string, x: string, c: char, y: string)
    ensures p + (x + [c] + y) == p + x + [c] + y
  {
    assert p + (x + [c] + y) == (p + x + [c]) + y;
  }

  /** Python `s.replace(from, to)` for one-character `from` and `to`. */
  function ReplaceChar(s: string, from: char, to: char): (r: string)
    ensures |r| == |s|
    ensures from != to ==> from !in r
    ensures forall i :: 0 <= i < |s| ==> r[i] == (if s[i] == from then to else s[i])
  {
    seq(|s|, i requires 0 <= i < |s| => if s[i] == from then to else s[i])
  }

  /** Replacing a character the string does not hold changes nothing. */
  lemma ReplaceCharAbsent(s: string, from: char, to: char)
    requires from !in s
    ensures ReplaceChar(s, from, to) == s
  {
    var r := ReplaceChar(s, from, to);
    assert forall i :: 0 <= i < |s| ==> s[i] in s && r[i] == s[i];
  }

  /** `s` with every character of `drop` removed, the rest in order; with a
      single character this is Python `s.replace(ch, '')`. */
  function Without(s: string, drop: set<char>): (r: string)
    ensures |r| <= |s|
    ensures Avoids(r, drop)
    ensures forall c :: c in r ==> c in s
  {
    if s == [] then []
    else if s[0] in drop then Without(s[1..], drop)
    else [s[0]] + Without(s[1..], drop)
  }

  /** Removing characters distributes over concatenation. */
  lemma {:induction false} WithoutAppend(a: string, b: string, drop: set<char>)
    ensures Without(a + b, drop) == Without(a, drop) + Without(b, drop)
    decreases |a|
  {
    if a != [] {
      assert (a + b)[1..] == a[1..] + b;
      WithoutAppend(a[1..], b, drop);
    } else {
      assert a + b == b;
    }
  }

  /** Removing characters a string avoids leaves it unchanged. */
  lemma {:induction false} WithoutIdentity(s: string, drop: set<char>)
    requires Avoids(s, drop)
    ensures Without(s, drop) == s
    decreases |s|
  {
    if s != [] {
      WithoutIdentity(s[1..], drop);
    }
  }

  // ---------------------------------------------------------------------------
  // str.split(sep), re.split('[...]', s) and re.split('[...]+', s)
  // ---------------------------------------------------------------------------

  /** Every character of `delims` separates two pieces: Python `s.split(sep)`
      for `delims == {sep}`, and `re.split('[' + delims + ']', s)`. The pieces
      never contain a delimiter and there is one more piece than delimiters. */
  function SplitAt(s: string, delims: set<char>): (parts: seq<string>)
    ensures |parts| >= 1
    ensures forall i :: 0 <= i < |parts| ==> Avoids(parts[i], delims)
    decreases |s|
  {
    if s == [] then [[]]
    else
      var rest := SplitAt(s[1..], delims);
      if s[0] in delims then [[]] + rest
      else [[s[0]] + rest[0]] + rest[1..]
  }

  /** Python `sep.join(parts)` for a one-character separator. */
  function Join(parts: seq<string>, sep: char): string
    decreases |parts|
  {
    if parts == [] then []
    else if |parts| == 1 then parts[0]
    else parts[0] + [sep] + Join(parts[1..], sep)
  }

  /** Splitting at a delimiter that the left part avoids: the pieces of the
      whole are the pieces of the two sides. */
  lemma {:induction false} SplitAtAcross(a: string, c: char, b: string, delims: set<char>)
    requires c in delims
    ensures SplitAt(a + [c] + b, delims) == SplitAt(a, delims) + SplitAt(b, delims)
    decreases |a|
  {
    var s := a + [c] + b;
    if a == [] {
      assert s == [c] + b && s[1..] == b;
    } else {
      assert s[1..] == a[1..] + [c] + b;
      SplitAtAcross(a[1..], c, b, delims);
    }
  }

  /** Joining the pieces of a split restores the string. */
  lemma {:induction false} JoinSplitAt(s: string, sep: char)
    ensures Join(SplitAt(s, {sep}), sep) == s
    decreases |s|
  {
    if s != [] {
      var rest := SplitAt(s[1..], {sep});
      JoinSplitAt(s[1..], sep);
      if s[0] == sep {
        assert SplitAt(s, {sep}) == [[]] + rest;
        assert ([[]] + rest)[1..] == rest;
      } else {
        var parts := SplitAt(s, {sep});
        assert parts == [[s[0]] + rest[0]] + rest[1..];
        if |rest| == 1 {
          assert Join(parts, sep) == [s[0]] + rest[0];
        } else {
          assert parts[1..] == rest[1..];
          assert Join(rest, sep) == rest[0] + [sep] + Join(rest[1..], sep);
        }
      }
    }
  }

  /** Splitting a joined list restores the list when no piece contains a
      delimiter and the separator is one. */
  lemma {:induction false} SplitAtJoin(parts: seq<string>, sep: char, delims: set<char>)
    requires |parts| >= 1
    requires sep in delims
    requires forall i :: 0 <= i < |parts| ==> Avoids(parts[i], delims)
    ensures SplitAt(Join(parts, sep), delims) == parts
    decreases |parts|
  {
    if |parts| == 1 {
      SplitAtOfFree(parts[0], delims);
    } else {
      SplitAtJoin(parts[1..], sep, delims);
      SplitAtAcross(parts[0], sep, Join(parts[1..], sep), delims);
      SplitAtOfFree(parts[0], delims);
      assert [parts[0]] + parts[1..] == parts;
    }
  }

  /** A string without delimiters is a single piece. */
  lemma {:induction false} SplitAtOfFree(s: string, delims: set<char>)
    requires Avoids(s, delims)
    ensures SplitAt(s, delims) == [s]
    decreases |s|
  {
    if s != [] {
      SplitAtOfFree(s[1..], delims);
      assert [s[0]] + s[1..] == s;
    }
  }

  /** Python `re.split('[' + delims + ']+', s)`: every maximal run of
      delimiters separates two tokens, so only the first token (when `s`
      starts with a delimiter) and the last (when it ends with one) can be
      empty. */
  function SplitRuns(s: string, delims: set<char>): (tokens: seq<string>)
    ensures |tokens| >= 1
    ensures forall i :: 0 <= i < |tokens| ==> Avoids(tokens[i], delims)
    ensures forall i :: 0 < i < |tokens| - 1 ==> tokens[i] != []
    ensures tokens[0] == [] <==> s == [] || s[0] in delims
    ensures tokens[|tokens| - 1] == [] <==> s == [] || s[|s| - 1] in delims
    ensures |tokens| == 1 <==> Avoids(s, delims)
    decreases |s|
  {
    if s == [] then [[]]
    else
      var rest := SplitRuns(s[1..], delims);
      if s[0] !in delims then
        var tokens := [[s[0]] + rest[0]] + rest[1..];
        RunsOfKept(s, delims, rest);
        tokens
      else if s[1..] != [] && s[1] in delims then
        RunsOfDoubled(s, delims, rest);
        rest
      else
        RunsOfDelimiter(s, delims, rest);
        [[]] + rest
  }

  /** The facts `SplitRuns` states about the tokens of `s`. */
  predicate RunsOf(s: string, delims: set<char>, tokens: seq<string>)
  {
    && |tokens| >= 1
    && (forall i :: 0 <= i < |tokens| ==> Avoids(tokens[i], delims))
    && (forall i :: 0 < i < |tokens| - 1 ==> tokens[i] != [])
    && (tokens[0] == [] <==> s == [] || s[0] in delims)
    && (tokens[|tokens| - 1] == [] <==> s == [] || s[|s| - 1] in delims)
    && (|tokens| == 1 <==> Avoids(s, delims))
  }

  /** A kept first character joins the first token of the rest. */
  lemma RunsOfKept(s: string, delims: set<char>, rest: seq<string>)
    requires s != [] && s[0] !in delims
    requires RunsOf(s[1..], delims, rest)
    ensures RunsOf(s, delims, [[s[0]] + rest[0]] + rest[1..])
  {
    var tokens := [[s[0]] + rest[0]] + rest[1..];
    assert s == [s[0]] + s[1..];
    assert Avoids(s, delims) <==> Avoids(s[1..], delims);
    assert |rest| == 1 ==> tokens == [[s[0]] + rest[0]];
    assert s[1..] != [] ==> s[1..][|s[1..]| - 1] == s[|s| - 1];
    forall i | 0 <= i < |tokens|
      ensures Avoids(tokens[i], delims)
    {
      if i > 0 {
        assert tokens[i] == rest[i];
      }
    }
  }

  /** A delimiter followed by another belongs to the same run. */
  lemma RunsOfDoubled(s: string, delims: set<char>, rest: seq<string>)
    requires s != [] && s[0] in delims && s[1..] != [] && s[1] in delims
    requires RunsOf(s[1..], delims, rest)
    ensures RunsOf(s, delims, rest)
  {
    assert s[1..][|s[1..]| - 1] == s[|s| - 1];
    assert s[0] in s;
  }

  /** A delimiter that ends a run before a kept character or the end opens
      the sequence with an empty token. */
  lemma RunsOfDelimiter(s: string, delims: set<char>, rest: seq<string>)
    requires s != [] && s[0] in delims && !(s[1..] != [] && s[1] in delims)
    requires RunsOf(s[1..], delims, rest)
    ensures RunsOf(s, delims, [[]] + rest)
  {
    var tokens := [[]] + rest;
    assert s[1..] != [] ==> s[1..][|s[1..]| - 1] == s[|s| - 1];
    assert s[0] in s;
    assert forall i :: 0 < i < |tokens| ==> tokens[i] == rest[i - 1];
  }

  /** All characters of the tokens, in order. */
  function Concat(tokens: seq<string>): string
  {
    if tokens == [] then [] else tokens[0] + Concat(tokens[1..])
  }

  /** The tokens of `re.split` hold exactly the non-delimiter characters of
      the input, in order: nothing is lost or invented. */
  lemma {:induction false} SplitRunsKeepsContent(s: string, delims: set<char>)
    ensures Concat(SplitRuns(s, delims)) == Without(s, delims)
    decreases |s|
  {
    if s != [] {
      SplitRunsKeepsContent(s[1..], delims);
      if s[0] !in delims {
        ContentAfterKept(s, delims);
      } else {
        ContentAfterDelimiter(s, delims);
      }
    }
  }

  /** Concatenating a token in front. */
  lemma ConcatCons(t: string, ts: seq<string>)
    ensures Concat([t] + ts) == t + Concat(ts)
  {
    assert ([t] + ts)[1..] == ts;
  }

  /** `SplitRunsKeepsContent` for a string starting with a kept character,
      given the property for the rest. */
  lemma ContentAfterKept(s: string, delims: set<char>)
    requires s != [] && s[0] !in delims
    requires Concat(SplitRuns(s[1..], delims)) == Without(s[1..], delims)
    ensures Concat(SplitRuns(s, delims)) == Without(s, delims)
  {
    var rest := SplitRuns(s[1..], delims);
    SplitRunsKeptHead(s, delims);
    ConcatCons([s[0]] + rest[0], rest[1..]);
    assert rest == [rest[0]] + rest[1..];
    ConcatCons(rest[0], rest[1..]);
    AppendAssoc([s[0]], rest[0], Concat(rest[1..]));
  }

  /** A kept first character joins the first token of the rest. */
  lemma SplitRunsKeptHead(s: string, delims: set<char>)
    requires s != [] && s[0] !in delims
    ensures var rest := SplitRuns(s[1..], delims);
            SplitRuns(s, delims) == [[s[0]] + rest[0]] + rest[1..]
  {
  }

  /** Concatenation is associative. */
  lemma AppendAssoc<T>(a: seq<T>, b: seq<T>, c: seq<T>)
    ensures a + b + c == a + (b + c)
  {
  }

  /** `SplitRunsKeepsContent` for a string starting with a delimiter, given
      the property for the rest. */
  lemma ContentAfterDelimiter(s: string, delims: set<char>)
    requires s != [] && s[0] in delims
    requires Concat(SplitRuns(s[1..], delims)) == Without(s[1..], delims)
    ensures Concat(SplitRuns(s, delims)) == Without(s, delims)
  {
    var rest := SplitRuns(s[1..], delims);
    if !(s[1..] != [] && s[1] in delims) {
      assert SplitRuns(s, delims) == [[]] + rest;
      ConcatCons([], rest);
    }
  }

  /** A string without delimiters is a single token. */
  lemma {:induction false} SplitRunsOfFree(s: string, delims: set<char>)
    requires Avoids(s, delims)
    ensures SplitRuns(s, delims) == [s]
    decreases |s|
  {
    if s != [] {
      SplitRunsOfFree(s[1..], delims);
      assert [s[0]] + s[1..] == s;
    }
  }

  /** A leading non-delimiter joins the first token. */
  lemma SplitRunsCons(x: char, u: string, delims: set<char>)
    requires x !in delims
    ensures SplitRuns([x] + u, delims)
         == [[x] + SplitRuns(u, delims)[0]] + SplitRuns(u, delims)[1..]
  {
    assert ([x] + u)[1..] == u;
  }

  /** A lone leading delimiter before a non-delimiter or the end opens an
      empty first token. */
  lemma SplitRunsLeadingDelimiter(c: char, r: string, delims: set<char>)
    requires c in delims
    requires r == [] || r[0] !in delims
    ensures SplitRuns([c] + r, delims) == [[]] + SplitRuns(r, delims)
  {
    assert ([c] + r)[1..] == r;
  }

  /** A non-empty string made only of delimiters: what `[…]+` matches. */
  predicate DelimiterRun(run: string, delims: set<char>)
  {
    run != [] && forall i :: 0 <= i < |run| ==> run[i] in delims
  }

  /** A whole run of delimiters in front of a non-delimiter or the end opens
      one empty first token, however long the run is. */
  lemma {:induction false} SplitRunsLeadingRun(run: string, r: string, delims: set<char>)
    requires DelimiterRun(run, delims)
    requires r == [] || r[0] !in delims
    ensures SplitRuns(run + r, delims) == [[]] + SplitRuns(r, delims)
    decreases |run|
  {
    if |run| == 1 {
      assert run == [run[0]];
      SplitRunsLeadingDelimiter(run[0], r, delims);
    } else {
      var tail := run[1..];
      RunTail(run, delims);
      SplitRunsLeadingRun(tail, r, delims);
      RunUncons(run, r);
      SplitRunsDoubled(run[0], tail + r, delims);
    }
  }

  /** A delimiter run of two or more characters: its first is a delimiter and the rest is a run. */
  lemma RunTail(run: string, delims: set<char>)
    requires DelimiterRun(run, delims) && |run| > 1
    ensures DelimiterRun(run[1..], delims) && run[0] in delims
  {
    assert forall i :: 0 <= i < |run[1..]| ==> run[1..][i] == run[i + 1];
  }

  /** Splitting the first character off a run followed by `r`. */
  lemma RunUncons(run: string, r: string)
    requires |run| > 1
    ensures run + r == [run[0]] + (run[1..] + r)
    ensures (run[1..] + r)[0] == run[1]
  {
    assert run == [run[0]] + run[1..];
  }

  /** A delimiter followed by another adds no token. */
  lemma SplitRunsDoubled(c: char, u: string, delims: set<char>)
    requires c in delims && u != [] && u[0] in delims
    ensures SplitRuns([c] + u, delims) == SplitRuns(u, delims)
  {
    assert ([c] + u)[1..] == u;
  }

  /** A run of delimiters followed by an empty string or a non-delimiter
      ends the token before it. */
  lemma {:induction false} SplitRunsAcross(t: string, run: string, r: string, delims: set<char>)
    requires Avoids(t, delims)
    requires DelimiterRun(run, delims)
    requires r == [] || r[0] !in delims
    ensures SplitRuns(t + run + r, delims) == [t] + SplitRuns(r, delims)
    decreases |t|
  {
    if t == [] {
      assert t + run + r == run + r;
      SplitRunsLeadingRun(run, r, delims);
    } else {
      var x, u := t[0], t[1..] + run + r;
      UnconsAround(t, run, r);
      assert x !in delims by {
        assert x in t;
      }
      assert Avoids(t[1..], delims) by {
        forall y | y in t[1..] ensures y !in delims { assert y in t; }
      }
      SplitRunsAcross(t[1..], run, r, delims);
      SplitRunsCons(x, u, delims);
    }
  }

  /** Splitting off the first character of `t` in `t + m + r`. */
  lemma UnconsAround(t: string, m: string, r: string)
    requires t != []
    ensures t + m + r == [t[0]] + (t[1..] + m + r)
    ensures [t[0]] + t[1..] == t
  {
    assert t == [t[0]] + t[1..];
  }

  /** Parts joined by separators of their own: `parts[0] + seps[0] +
      parts[1] + …`. */
  function JoinRuns(parts: seq<string>, seps: seq<string>): string
    requires |parts| >= 1 && |seps| == |parts| - 1
    decreases |parts|
  {
    if |parts| == 1 then parts[0] else parts[0] + seps[0] + JoinRuns(parts[1..], seps[1..])
  }

  /** Round trip: tokens without delimiters, none empty except possibly the
      first and the last, come back from `re.split` of their join by any
      runs of delimiters. */
  lemma {:induction false} SplitRunsJoinRuns(tokens: seq<string>, seps: seq<string>, delims: set<char>)
    requires JoinableRuns(tokens, seps, delims)
    ensures SplitRuns(JoinRuns(tokens, seps), delims) == tokens
    decreases |tokens|
  {
    if |tokens| == 1 {
      SplitRunsOfFree(tokens[0], delims);
    } else {
      var rest, more := tokens[1..], seps[1..];
      JoinableRunsTail(tokens, seps, delims);
      SplitRunsJoinRuns(rest, more, delims);
      SplitRunsAcross(tokens[0], seps[0], JoinRuns(rest, more), delims);
      assert [tokens[0]] + rest == tokens;
    }
  }

  /** What `SplitRunsJoinRuns` needs of the parts and separators. */
  predicate JoinableRuns(tokens: seq<string>, seps: seq<string>, delims: set<char>)
  {
    && |tokens| >= 1 && |seps| == |tokens| - 1
    && (forall i :: 0 <= i < |seps| ==> DelimiterRun(seps[i], delims))
    && (forall i :: 0 <= i < |tokens| ==> Avoids(tokens[i], delims))
    && (forall i :: 0 < i < |tokens| - 1 ==> tokens[i] != [])
  }

  /** Dropping the first part and separator keeps the parts joinable, and
      the join of the rest starts with a non-delimiter or is empty. */
  lemma JoinableRunsTail(tokens: seq<string>, seps: seq<string>, delims: set<char>)
    requires JoinableRuns(tokens, seps, delims) && |tokens| > 1
    ensures JoinableRuns(tokens[1..], seps[1..], delims)
    ensures Avoids(tokens[0], delims) && DelimiterRun(seps[0], delims)
    ensures JoinRuns(tokens, seps) == tokens[0] + seps[0] + JoinRuns(tokens[1..], seps[1..])
    ensures var r := JoinRuns(tokens[1..], seps[1..]); r == [] || r[0] !in delims
  {
    var rest, more := tokens[1..], seps[1..];
    assert forall i :: 0 <= i < |more| ==> more[i] == seps[i + 1];
    assert forall i :: 0 <= i < |rest| ==> rest[i] == tokens[i + 1];
    var r := JoinRuns(rest, more);
    JoinRunsHead(rest, more);
    if r != [] {
      assert rest[0][0] in rest[0];
    }
  }

  /** A join by runs starts with its first part, which is non-empty or, in
      a join of one part, the whole join. */
  lemma JoinRunsHead(parts: seq<string>, seps: seq<string>)
    requires |parts| >= 1 && |seps| == |parts| - 1
    requires |parts| > 1 ==> parts[0] != []
    ensures JoinRuns(parts, seps) != [] ==> parts[0] != [] && JoinRuns(parts, seps)[0] == parts[0][0]
  {
  }

  /** A join by one character is a join by runs of that character. */
  lemma {:induction false} JoinAsRuns(parts: seq<string>, sep: char)
    requires |parts| >= 1
    ensures Join(parts, sep) == JoinRuns(parts, seq(|parts| - 1, _ => [sep]))
    decreases |parts|
  {
    if |parts| > 1 {
      JoinAsRuns(parts[1..], sep);
      assert seq(|parts| - 1, _ => [sep])[1..] == seq(|parts| - 2, _ => [sep]);
    }
  }

  /** Round trip: tokens without delimiters, none empty except possibly the
      first and the last, come back from `re.split` of their join by one
      delimiter. */
  lemma SplitRunsJoin(tokens: seq<string>, sep: char, delims: set<char>)
    requires |tokens| >= 1
    requires sep in delims
    requires forall i :: 0 <= i < |tokens| ==> Avoids(tokens[i], delims)
    requires forall i :: 0 < i < |tokens| - 1 ==> tokens[i] != []
    ensures SplitRuns(Join(tokens, sep), delims) == tokens
  {
    var seps := seq(|tokens| - 1, _ => [sep]);
    JoinAsRuns(tokens, sep);
    SplitRunsJoinRuns(tokens, seps, delims);
  }

  /** The pieces of a split avoid whatever the whole string avoids. */
  lemma {:induction false} SplitAtKeepsAvoiding(s: string, delims: set<char>, other: set<char>)
    requires Avoids(s, other)
    ensures forall i :: 0 <= i < |SplitAt(s, delims)| ==> Avoids(SplitAt(s, delims)[i], other)
    decreases |s|
  {
    if s != [] {
      assert s[0] in s;
      SplitAtKeepsAvoiding(s[1..], delims, other);
    }
  }

  /** A join avoids every character its parts and its separator avoid. */
  lemma {:induction false} JoinAvoids(parts: seq<string>, sep: char, chars: set<char>)
    requires sep !in chars
    requires forall i :: 0 <= i < |parts| ==> Avoids(parts[i], chars)
    ensures Avoids(Join(parts, sep), chars)
    decreases |parts|
  {
    if |parts| > 1 {
      JoinAvoids(parts[1..], sep, chars);
    }
  }

  /** Replacing a pattern that no part contains, and that does not contain
      the separator, leaves a join unchanged. */
  lemma {:induction false} ReplaceAllJoinIdentity(parts: seq<string>, sep: char, pat: string, rep: string)
    requires pat != [] && sep !in pat
    requires forall i :: 0 <= i < |parts| ==> !Occurs(parts[i], pat)
    ensures ReplaceAll(Join(parts, sep), pat, rep) == Join(parts, sep)
    decreases |parts|
  {
    if |parts| == 1 {
      ReplaceAllIdentity(parts[0], pat, rep);
    } else if |parts| > 1 {
      ReplaceAllJoinIdentity(parts[1..], sep, pat, rep);
      ReplaceAllIdentity(parts[0], pat, rep);
      ReplaceAllAcross(parts[0], sep, Join(parts[1..], sep), pat, rep);
    }
  }

  // ---------------------------------------------------------------------------
  // Small helpers
  // ---------------------------------------------------------------------------

  /** Python `s.endswith(suffix)`. */
  predicate EndsWith(s: string, suffix: string)
  {
    |suffix| <= |s| && s[|s| - |suffix|..] == suffix
  }
}
