/**
  The few Python `str` operations the Q-Paks parsers rely on, with their
  Python semantics written out: `strip()`, ASCII `lower()`, `split(sep)`
  (which keeps empty fields), `split()` (runs of whitespace, no empty
  tokens), `sep.join(...)`, the substring test `needle in hay`,
  `startswith`, `index` and clamped slicing `s[i:]`.
 */
module PyStr {

  datatype Option<T> = None | Some(value: T)

  function Last<T>(s: seq<T>): T
    requires s != []
  {
    s[|s| - 1]
  }

  /** All but the last element. */
  function Init<T>(s: seq<T>): seq<T>
    requires s != []
  {
    s[..|s| - 1]
  }

  /** Python's `str.isspace()` for one character: the whitespace set that
      `strip()` and `split()` use. */
  predicate IsSpace(c: char) {
    || ('\t' <= c <= '\r')
    || ('\U{1C}' <= c <= '\U{1F}')
    || c == ' '
    || c == '\U{85}'
    || c == '\U{A0}'
    || c == '\U{1680}'
    || ('\U{2000}' <= c <= '\U{200A}')
    || c == '\U{2028}'
    || c == '\U{2029}'
    || c == '\U{202F}'
    || c == '\U{205F}'
    || c == '\U{3000}'
  }

  predicate AllSpace(s: string) {
    forall i :: 0 <= i < |s| ==> IsSpace(s[i])
  }

  predicate NoSpace(s: string) {
    forall i :: 0 <= i < |s| ==> !IsSpace(s[i])
  }

  /** Neither end of `s` is whitespace: what `strip()` leaves. */
  predicate Unpadded(s: string) {
    s == [] || (!IsSpace(s[0]) && !IsSpace(s[|s| - 1]))
  }

  // ---------------------------------------------------------------------
  // strip()
  // ---------------------------------------------------------------------

  /** `s[i..i+|r|] == r` and everything around it in `s` is whitespace. */
  predicate PaddedAt(s: string, r: string, i: nat) {
    && i + |r| <= |s|
    && s[i..i + |r|] == r
    && AllSpace(s[..i])
    && AllSpace(s[i + |r|..])
  }

  /** `s.strip()`: the leading and the trailing whitespace removed. */
  function Strip(s: string): (r: string)
    ensures |r| <= |s|
    ensures Unpadded(r)
    decreases |s|
  {
    if s != [] && IsSpace(s[0]) then Strip(s[1..])
    else if s != [] && IsSpace(s[|s| - 1]) then Strip(s[..|s| - 1])
    else s
  }

  /** What `strip()` keeps is a slice of its argument with only whitespace
      around it. */
  lemma {:induction false} StripPadded(s: string)
    ensures exists i: nat :: PaddedAt(s, Strip(s), i)
    decreases |s|
  {
    var r := Strip(s);
    if s != [] && IsSpace(s[0]) {
      StripPadded(s[1..]);
      var i: nat :| PaddedAt(s[1..], r, i);
      PaddedAtLeft(s, r, i);
    } else if s != [] && IsSpace(s[|s| - 1]) {
      StripPadded(s[..|s| - 1]);
      var i: nat :| PaddedAt(s[..|s| - 1], r, i);
      PaddedAtRight(s, r, i);
    } else {
      assert PaddedAt(s, r, 0);
    }
  }

  lemma PaddedAtLeft(s: string, r: string, i: nat)
    requires s != [] && IsSpace(s[0]) && PaddedAt(s[1..], r, i)
    ensures PaddedAt(s, r, i + 1)
  {
    var t := s[1..];
    assert s[i + 1..i + 1 + |r|] == t[i..i + |r|];
    assert s[i + 1 + |r|..] == t[i + |r|..];
    var pre := s[..i + 1];
    forall k | 0 <= k < |pre| ensures IsSpace(pre[k]) {
      if k > 0 {
        assert pre[k] == t[..i][k - 1];
      }
    }
  }

  lemma PaddedAtRight(s: string, r: string, i: nat)
    requires s != [] && IsSpace(s[|s| - 1]) && PaddedAt(s[..|s| - 1], r, i)
    ensures PaddedAt(s, r, i)
  {
    var t := s[..|s| - 1];
    assert s[i..i + |r|] == t[i..i + |r|];
    assert s[..i] == t[..i];
    var post := s[i + |r|..];
    assert post == t[i + |r|..] + [s[|s| - 1]];
    forall k | 0 <= k < |post| ensures IsSpace(post[k]) {
      if k < |post| - 1 {
        assert post[k] == t[i + |r|..][k];
      }
    }
  }

  /** An unpadded string is its own strip. */
  lemma StripUnpadded(s: string)
    requires Unpadded(s)
    ensures Strip(s) == s
  {
  }

  /** Stripping whitespace from around an unpadded string gives that
      string: `strip()` removes the padding and nothing else. */
  lemma {:induction false} StripAround(pre: string, r: string, post: string)
    requires AllSpace(pre) && AllSpace(post) && Unpadded(r)
    ensures Strip(pre + r + post) == r
    decreases |pre| + |post|
  {
    var s := pre + r + post;
    if pre != [] {
      assert s[0] == pre[0];
      assert s[1..] == pre[1..] + r + post;
      StripAround(pre[1..], r, post);
    } else if post != [] {
      if r == [] {
        assert s[0] == post[0];
        assert s[1..] == [] + [] + post[1..];
        StripAround([], [], post[1..]);
      } else {
        assert s[0] == r[0];
        assert s[|s| - 1] == post[|post| - 1];
        assert s[..|s| - 1] == [] + r + post[..|post| - 1];
        StripAround([], r, post[..|post| - 1]);
      }
    }
  }

  lemma StripIdempotent(s: string)
    ensures Strip(Strip(s)) == Strip(s)
  {
    StripUnpadded(Strip(s));
  }

  /** `s.strip()` is empty exactly when `s` is all whitespace. */
  lemma {:induction false} StripEmptyIffAllSpace(s: string)
    ensures Strip(s) == [] <==> AllSpace(s)
    decreases |s|
  {
    if s != [] && IsSpace(s[0]) {
      StripEmptyIffAllSpace(s[1..]);
      assert AllSpace(s) <==> AllSpace(s[1..]) by {
        assert forall k :: 0 < k < |s| ==> s[k] == s[1..][k - 1];
      }
    } else if s != [] && IsSpace(s[|s| - 1]) {
      var t := s[..|s| - 1];
      StripEmptyIffAllSpace(t);
      assert AllSpace(s) <==> AllSpace(t) by {
        assert forall k :: 0 <= k < |t| ==> s[k] == t[k];
      }
    }
  }

  // ---------------------------------------------------------------------
  // lower() — ASCII letters only
  // ---------------------------------------------------------------------

  function LowerChar(c: char): char {
    if 'A' <= c <= 'Z' then (c as int - 'A' as int + 'a' as int) as char else c
  }

  predicate IsUpper(c: char) {
    'A' <= c <= 'Z'
  }

  /** `s.lower()`, restricted to the ASCII letters. */
  function Lower(s: string): (r: string)
    ensures |r| == |s|
  {
    if s == [] then [] else [LowerChar(s[0])] + Lower(s[1..])
  }

  /** Each character is lower-cased on its own. */
  lemma {:induction false} LowerAt(s: string)
    ensures forall i :: 0 <= i < |s| ==> Lower(s)[i] == LowerChar(s[i])
  {
    if s != [] {
      LowerAt(s[1..]);
    }
  }

  /** Lower-casing leaves no ASCII upper-case letter, and lower-casing twice
      changes nothing more. */
  lemma LowerNormalizes(s: string)
    ensures forall i :: 0 <= i < |s| ==> !IsUpper(Lower(s)[i])
    ensures Lower(Lower(s)) == Lower(s)
  {
    LowerAt(s);
    LowerAt(Lower(s));
  }

  // ---------------------------------------------------------------------
  // startswith and `needle in hay`
  // ---------------------------------------------------------------------

  /** `s.startswith(prefix)`. */
  predicate StartsWith(s: string, prefix: string) {
    |prefix| <= |s| && s[..|prefix|] == prefix
  }

  predicate OccursAt(hay: string, needle: string, i: nat) {
    i + |needle| <= |hay| && hay[i..i + |needle|] == needle
  }

  /** Python's substring test `needle in hay`. */
  predicate Contains(hay: string, needle: string)
    decreases |hay|
  {
    StartsWith(hay, needle) || (hay != [] && Contains(hay[1..], needle))
  }

  /** `needle in hay` holds exactly when `needle` occurs at some index of
      `hay`. */
  lemma {:induction false} ContainsIffOccurs(hay: string, needle: string)
    ensures Contains(hay, needle) <==> exists i: nat :: OccursAt(hay, needle, i)
    decreases |hay|
  {
    if hay == [] {
      if Contains(hay, needle) {
        assert OccursAt(hay, needle, 0);
      }
    } else {
      ContainsIffOccurs(hay[1..], needle);
      if Contains(hay, needle) {
        if StartsWith(hay, needle) {
          assert OccursAt(hay, needle, 0);
        } else {
          var i: nat :| OccursAt(hay[1..], needle, i);
          assert hay[1..][i..i + |needle|] == hay[i + 1..i + 1 + |needle|];
          assert OccursAt(hay, needle, i + 1);
        }
      }
      if exists i: nat :: OccursAt(hay, needle, i) {
        var i: nat :| OccursAt(hay, needle, i);
        if i > 0 {
          assert hay[1..][i - 1..i - 1 + |needle|] == hay[i..i + |needle|];
          assert OccursAt(hay[1..], needle, i - 1);
        }
      }
    }
  }

  /** A string containing `needle` anywhere, with anything around it,
      satisfies `needle in hay`. */
  lemma ContainsInfix(before: string, needle: string, after: string)
    ensures Contains(before + needle + after, needle)
  {
    var hay := before + needle + after;
    assert OccursAt(hay, needle, |before|) by {
      assert hay[|before|..|before| + |needle|] == needle;
    }
    ContainsIffOccurs(hay, needle);
  }

  /** The empty string is in every string (an empty query matches all). */
  lemma {:induction false} EmptyContained(hay: string)
    ensures Contains(hay, "")
  {
  }

  // ---------------------------------------------------------------------
  // index(c) and clamped slicing
  // ---------------------------------------------------------------------

  /** `s.index(c)`, with `None` for the `ValueError` raised when `c` is
      absent. */
  function Index(s: string, c: char): (r: Option<nat>)
    ensures r.None? <==> c !in s
    ensures r.Some? ==> r.value < |s| && s[r.value] == c && c !in s[..r.value]
  {
    if s == [] then None
    else if s[0] == c then Some(0)
    else match Index(s[1..], c)
      case None => None
      case Some(i) =>
        assert s[..i + 1] == [s[0]] + s[1..][..i];
        Some(i + 1)
  }

  /** `s[i:]`: an index past the end gives the empty string, not an error. */
  function SliceFrom<T>(s: seq<T>, i: nat): (r: seq<T>)
    ensures i <= |s| ==> r == s[i..]
    ensures i >= |s| ==> r == []
  {
    if i <= |s| then s[i..] else []
  }

  /** `s[:n]`: clamped at the length. */
  function SliceTo<T>(s: seq<T>, n: nat): (r: seq<T>)
    ensures n <= |s| ==> r == s[..n]
    ensures n >= |s| ==> r == s
  {
    if n <= |s| then s[..n] else s
  }

  // ---------------------------------------------------------------------
  // split(sep) and sep.join(...)
  // ---------------------------------------------------------------------

  /** `sep.join(parts)`. */
  function Join(parts: seq<string>, sep: string): string {
    if |parts| == 0 then ""
    else if |parts| == 1 then parts[0]
    else parts[0] + sep + Join(parts[1..], sep)
  }

  /** A non-empty join starts with the first part and ends with the last. */
  lemma {:induction false} JoinEnds(parts: seq<string>, sep: string)
    requires |parts| >= 1
    ensures |Join(parts, sep)| >= |parts[0]|
    ensures Join(parts, sep)[..|parts[0]|] == parts[0]
    ensures |Join(parts, sep)| >= |Last(parts)|
    ensures Join(parts, sep)[|Join(parts, sep)| - |Last(parts)|..] == Last(parts)
  {
    if |parts| > 1 {
      JoinEnds(parts[1..], sep);
      assert Last(parts[1..]) == Last(parts);
    }
  }

  /** `"".join(parts)`. */
  function Concat(parts: seq<string>): string {
    if parts == [] then "" else parts[0] + Concat(parts[1..])
  }

  /** `s.split(sep)` for a one-character separator: always at least one
      field, empty fields kept, no field holds the separator. */
  function Split(s: string, sep: char): (r: seq<string>)
    ensures |r| >= 1
  {
    if s == [] then [""]
    else
      var rest := Split(s[1..], sep);
      if s[0] == sep then [""] + rest
      else [[s[0]] + rest[0]] + rest[1..]
  }

  /** No field of a split holds the separator. */
  lemma {:induction false} SplitFieldsFree(s: string, sep: char)
    ensures forall k :: 0 <= k < |Split(s, sep)| ==> sep !in Split(s, sep)[k]
  {
    if s != [] {
      SplitFieldsFree(s[1..], sep);
    }
  }

  /** Joining the fields of a split with the separator gives the string
      back. */
  lemma {:induction false} JoinSplit(s: string, sep: char)
    ensures Join(Split(s, sep), [sep]) == s
  {
    if s != [] {
      var rest := Split(s[1..], sep);
      JoinSplit(s[1..], sep);
      if s[0] == sep {
        assert Split(s, sep) == [""] + rest;
        assert ([""] + rest)[1..] == rest;
      } else {
        var r := Split(s, sep);
        assert r == [[s[0]] + rest[0]] + rest[1..];
        if |rest| == 1 {
          assert Join(r, [sep]) == [s[0]] + rest[0];
        } else {
          assert r[1..] == rest[1..];
          assert Join(r, [sep]) == [s[0]] + rest[0] + [sep] + Join(rest[1..], [sep]);
        }
      }
    }
  }

  /** Splitting fields that hold no separator, joined with it, gives the
      fields back. */
  lemma {:induction false} SplitJoin(parts: seq<string>, sep: char)
    requires |parts| >= 1
    requires forall k :: 0 <= k < |parts| ==> sep !in parts[k]
    ensures Split(Join(parts, [sep]), sep) == parts
  {
    if |parts| == 1 {
      SplitNoSep(parts[0], sep);
    } else {
      SplitJoin(parts[1..], sep);
      SplitPrepend(parts[0], sep, Join(parts[1..], [sep]));
      assert Join(parts, [sep]) == parts[0] + ([sep] + Join(parts[1..], [sep]));
      assert [parts[0]] + parts[1..] == parts;
    }
  }

  lemma {:induction false} SplitNoSep(s: string, sep: char)
    requires sep !in s
    ensures Split(s, sep) == [s]
  {
    if s != [] {
      SplitNoSep(s[1..], sep);
      assert [s[0]] + s[1..] == s;
    }
  }

  /** A separator-free field in front of `sep + tail` is the first field. */
  lemma {:induction false} SplitPrepend(field: string, sep: char, tail: string)
    requires sep !in field
    ensures Split(field + [sep] + tail, sep) == [field] + Split(tail, sep)
  {
    if field == [] {
      assert [sep] + tail == field + [sep] + tail;
      assert ([sep] + tail)[1..] == tail;
    } else {
      SplitPrepend(field[1..], sep, tail);
      assert (field + [sep] + tail)[1..] == field[1..] + [sep] + tail;
      assert [field[0]] + field[1..] == field;
    }
  }

  /** The first field of a split is everything before the first separator,
      or the whole string when there is none. */
  lemma {:induction false} SplitFirstField(s: string, sep: char)
    ensures Index(s, sep).None? ==> Split(s, sep)[0] == s
    ensures Index(s, sep).Some? ==> Split(s, sep)[0] == s[..Index(s, sep).value]
  {
    if s != [] {
      SplitFirstField(s[1..], sep);
      if s[0] != sep {
        match Index(s[1..], sep)
        case None =>
        case Some(i) =>
          assert s[..i + 1] == [s[0]] + s[1..][..i];
      }
    }
  }

  // ---------------------------------------------------------------------
  // split() with no argument
  // ---------------------------------------------------------------------

  /** Length of the leading run of non-whitespace characters. */
  function WordLength(s: string): (n: nat)
    ensures n <= |s|
    ensures NoSpace(s[..n])
    ensures n < |s| ==> IsSpace(s[n])
  {
    if s == [] || IsSpace(s[0]) then 0 else 1 + WordLength(s[1..])
  }

  /** `s.split()`: the maximal runs of non-whitespace, in order. */
  function SplitWs(s: string): (r: seq<string>)
    decreases |s|
  {
    if s == [] then []
    else if IsSpace(s[0]) then SplitWs(s[1..])
    else
      var n := WordLength(s);
      [s[..n]] + SplitWs(s[n..])
  }

  /** Every token is non-empty and holds no whitespace. */
  lemma {:induction false} SplitWsTokens(s: string)
    ensures forall k :: 0 <= k < |SplitWs(s)| ==> SplitWs(s)[k] != [] && NoSpace(SplitWs(s)[k])
    decreases |s|
  {
    if s != [] {
      if IsSpace(s[0]) {
        SplitWsTokens(s[1..]);
      } else {
        SplitWsTokens(s[WordLength(s)..]);
      }
    }
  }

  /** `s.split()` is empty exactly when `s` is all whitespace. */
  lemma {:induction false} SplitWsEmpty(s: string)
    ensures SplitWs(s) == [] <==> AllSpace(s)
    decreases |s|
  {
    if s != [] && IsSpace(s[0]) {
      SplitWsEmpty(s[1..]);
      if AllSpace(s[1..]) {
        forall i | 0 <= i < |s| ensures IsSpace(s[i]) {
          if i > 0 { assert s[i] == s[1..][i - 1]; }
        }
      }
    }
  }

  /** A whitespace-free word followed by one whitespace character splits
      off as the first token. */
  lemma {:induction false} SplitWsPrepend(word: string, sp: char, tail: string)
    requires word != [] && NoSpace(word) && IsSpace(sp)
    ensures SplitWs(word + [sp] + tail) == [word] + SplitWs(tail)
  {
    var s := word + [sp] + tail;
    WordLengthOf(word, sp, tail);
    assert s[..|word|] == word;
    assert s[|word|..] == [sp] + tail;
    assert ([sp] + tail)[1..] == tail;
  }

  lemma {:induction false} WordLengthOf(word: string, sp: char, tail: string)
    requires NoSpace(word) && IsSpace(sp)
    ensures WordLength(word + [sp] + tail) == |word|
  {
    if word != [] {
      WordLengthOf(word[1..], sp, tail);
      assert (word + [sp] + tail)[1..] == word[1..] + [sp] + tail;
    }
  }

  lemma {:induction false} SplitWsWord(word: string)
    requires word != [] && NoSpace(word)
    ensures SplitWs(word) == [word]
  {
    var n := WordLength(word);
    assert word[..|word|] == word;
    assert word[|word|..] == [];
  }

  /** `" ".join(tokens).split()` gives the tokens back when each token is
      non-empty and whitespace-free. */
  lemma {:induction false} SplitWsJoin(tokens: seq<string>)
    requires forall k :: 0 <= k < |tokens| ==> tokens[k] != [] && NoSpace(tokens[k])
    ensures SplitWs(Join(tokens, " ")) == tokens
  {
    if |tokens| == 1 {
      SplitWsWord(tokens[0]);
    } else if |tokens| > 1 {
      SplitWsJoin(tokens[1..]);
      SplitWsPrepend(tokens[0], ' ', Join(tokens[1..], " "));
      assert [tokens[0]] + tokens[1..] == tokens;
    }
  }

  /** A leading run of non-whitespace is no longer than the first word. */
  lemma {:induction false} WordLengthAtLeast(s: string, m: nat)
    requires m <= |s| && NoSpace(s[..m])
    ensures WordLength(s) >= m
  {
    if m > 0 {
      assert s[0] == s[..m][0];
      assert s[1..][..m - 1] == s[..m][1..];
      WordLengthAtLeast(s[1..], m - 1);
    }
  }

  /** A whitespace-free prefix of a string is a prefix of its first word,
      and the other way round. */
  lemma FirstWordPrefix(s: string, p: string)
    requires NoSpace(p)
    ensures StartsWith(s, p) <==> StartsWith(s[..WordLength(s)], p)
  {
    var n := WordLength(s);
    if StartsWith(s, p) {
      WordLengthAtLeast(s, |p|);
      assert s[..n][..|p|] == s[..|p|];
    }
    if StartsWith(s[..n], p) {
      assert s[..|p|] == s[..n][..|p|];
    }
  }

  /** On a string that starts with a non-whitespace character, the first
      token of `split()` exists and is the leading non-whitespace run. */
  lemma FirstToken(s: string)
    requires s != [] && !IsSpace(s[0])
    ensures SplitWs(s) != [] && SplitWs(s)[0] == s[..WordLength(s)]
    ensures 0 < WordLength(s)
  {
  }
}
