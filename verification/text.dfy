/** The string primitives of Rust's `str` that the fetch pipeline relies on:
    `trim`, ASCII lower-casing, `find`, `split_once`, `split` and collecting
    an iterator of strings into one `String`. Strings are sequences of
    Unicode scalar values. */
module Text {
  import opened Wrappers

  /** The Unicode White_Space property, which `char::is_whitespace` and
      therefore `str::trim` use. */
  predicate IsWhitespace(c: char) {
    ('\t' <= c <= '\r') || c == ' ' || c == '\U{85}' || c == '\U{A0}' || c == '\U{1680}'
    || ('\U{2000}' <= c <= '\U{200A}') || c == '\U{2028}' || c == '\U{2029}'
    || c == '\U{202F}' || c == '\U{205F}' || c == '\U{3000}'
  }

  predicate AllWhitespace(s: string) {
    forall i :: 0 <= i < |s| ==> IsWhitespace(s[i])
  }

  /** `str::trim_start`: drops the longest whitespace prefix. */
  function TrimStart(s: string): (r: string)
    ensures |r| <= |s| && r == s[|s| - |r|..]
    ensures AllWhitespace(s[..|s| - |r|])
    ensures r == [] || !IsWhitespace(r[0])
    decreases |s|
  {
    if s != [] && IsWhitespace(s[0]) then
      var r := TrimStart(s[1..]);
      assert s[..|s| - |r|] == [s[0]] + s[1..][..|s| - 1 - |r|];
      r
    else s
  }

  /** `str::trim_end`: drops the longest whitespace suffix. */
  function TrimEnd(s: string): (r: string)
    ensures |r| <= |s| && r == s[..|r|]
    ensures AllWhitespace(s[|r|..])
    ensures r == [] || !IsWhitespace(r[|r| - 1])
    decreases |s|
  {
    if s != [] && IsWhitespace(s[|s| - 1]) then
      var r := TrimEnd(s[..|s| - 1]);
      assert s[|r|..] == s[..|s| - 1][|r|..] + [s[|s| - 1]];
      r
    else s
  }

  /** `str::trim`: the text between the longest whitespace prefix and the
      longest whitespace suffix. */
  function Trim(s: string): (r: string)
    ensures |r| <= |s|
    ensures r == [] || (!IsWhitespace(r[0]) && !IsWhitespace(r[|r| - 1]))
    ensures r == [] <==> AllWhitespace(s)
  {
    var t := TrimStart(s);
    assert t == [] ==> s == s[..|s| - |t|];
    TrimEnd(t)
  }

  lemma {:induction false} TrimStartPadded(a: string, m: string)
    requires AllWhitespace(a)
    requires m == [] || !IsWhitespace(m[0])
    ensures TrimStart(a + m) == m
    decreases |a|
  {
    if a != [] {
      assert (a + m)[1..] == a[1..] + m;
      TrimStartPadded(a[1..], m);
    } else {
      assert a + m == m;
    }
  }

  lemma {:induction false} TrimEndPadded(m: string, b: string)
    requires AllWhitespace(b)
    requires m == [] || !IsWhitespace(m[|m| - 1])
    ensures TrimEnd(m + b) == m
    decreases |b|
  {
    if b != [] {
      assert (m + b)[..|m + b| - 1] == m + b[..|b| - 1];
      TrimEndPadded(m, b[..|b| - 1]);
    } else {
      assert m + b == m;
    }
  }

  /** `trim` removes exactly the whitespace padding around text whose ends
      are not whitespace; with the result properties of `Trim` this
      determines it completely. */
  lemma TrimPadded(a: string, m: string, b: string)
    requires AllWhitespace(a) && AllWhitespace(b)
    requires m == [] || (!IsWhitespace(m[0]) && !IsWhitespace(m[|m| - 1]))
    ensures Trim(a + m + b) == m
  {
    if m == [] {
      assert a + m + b == a + b;
      TrimStartPadded(a + b, []);
      assert a + b + [] == a + b;
    } else {
      assert a + m + b == a + (m + b);
      TrimStartPadded(a, m + b);
      TrimEndPadded(m, b);
    }
  }

  /** ASCII lower-casing of one character; every other character is kept. */
  function LowerChar(c: char): char {
    if 'A' <= c <= 'Z' then (c as int + 32) as char else c
  }

  function ToLowerAscii(s: string): string {
    seq(|s|, i requires 0 <= i < |s| => LowerChar(s[i]))
  }

  /** Lower-casing keeps the length, turns each capital A-Z into the small
      letter at the same place in the alphabet, and changes nothing else. */
  lemma LowerLetters(s: string)
    ensures |ToLowerAscii(s)| == |s|
    ensures forall i :: 0 <= i < |s| && 'A' <= s[i] <= 'Z' ==>
              'a' <= ToLowerAscii(s)[i] <= 'z' && ToLowerAscii(s)[i] as int - 'a' as int == s[i] as int - 'A' as int
    ensures forall i :: 0 <= i < |s| && !('A' <= s[i] <= 'Z') ==> ToLowerAscii(s)[i] == s[i]
  {
  }

  /** Text without capitals is left as it is. */
  lemma LowerNoCapitals(s: string)
    requires forall i :: 0 <= i < |s| ==> !('A' <= s[i] <= 'Z')
    ensures ToLowerAscii(s) == s
  {
  }

  /** Lower-casing works character by character, so it distributes over
      concatenation. */
  lemma LowerAppend(a: string, b: string)
    ensures ToLowerAscii(a + b) == ToLowerAscii(a) + ToLowerAscii(b)
  {
  }

  /** Lower-casing yields no upper-case ASCII letter, so it is idempotent. */
  lemma LowerIdempotent(s: string)
    ensures forall i :: 0 <= i < |s| ==> !('A' <= ToLowerAscii(s)[i] <= 'Z')
    ensures ToLowerAscii(ToLowerAscii(s)) == ToLowerAscii(s)
  {
  }

  predicate OccursAt(s: string, pat: string, i: nat) {
    i + |pat| <= |s| && s[i..i + |pat|] == pat
  }

  /** `pat` occurs nowhere in `s`. */
  predicate Free(s: string, pat: string) {
    forall j: nat :: j <= |s| ==> !OccursAt(s, pat, j)
  }

  /** For a one-character pattern, "no occurrence before k" means the
      character is absent from the first k characters. */
  lemma CharAbsentBefore(s: string, c: char, k: nat)
    requires k <= |s|
    requires forall j: nat :: j < k ==> !OccursAt(s, [c], j)
    ensures c !in s[..k]
  {
    forall j | 0 <= j < k ensures s[j] != c {
      assert !OccursAt(s, [c], j);
      assert s[j..j + 1] == [s[j]];
    }
  }

  lemma FreeOfChar(s: string, c: char)
    requires c !in s
    ensures Free(s, [c])
  {
    forall j: nat | j <= |s| ensures !OccursAt(s, [c], j) {
      if j + 1 <= |s| { assert s[j..j + 1][0] == s[j]; }
    }
  }

  function FindFrom(s: string, pat: string, k: nat): (r: Option<nat>)
    requires |pat| > 0
    ensures r.Some? ==> k <= r.value && OccursAt(s, pat, r.value)
    ensures r.Some? ==> forall j: nat :: k <= j < r.value ==> !OccursAt(s, pat, j)
    ensures r.None? ==> forall j: nat :: k <= j ==> !OccursAt(s, pat, j)
    decreases |s| - k
  {
    if k + |pat| > |s| then None
    else if s[k..k + |pat|] == pat then Some(k)
    else FindFrom(s, pat, k + 1)
  }

  /** `str::find`: the index of the first occurrence of `pat`. */
  function Find(s: string, pat: string): (r: Option<nat>)
    requires |pat| > 0
    ensures r.Some? ==> OccursAt(s, pat, r.value)
    ensures r.Some? ==> forall j: nat :: j < r.value ==> !OccursAt(s, pat, j)
    ensures r.None? <==> Free(s, pat)
  {
    FindFrom(s, pat, 0)
  }

  /** `str::split_once`: the text before and after the first occurrence. */
  function SplitOnce(s: string, pat: string): (r: Option<(string, string)>)
    requires |pat| > 0
    ensures r.None? <==> Free(s, pat)
    ensures r.Some? ==> s == r.value.0 + pat + r.value.1
    ensures r.Some? ==> OccursAt(s, pat, |r.value.0|)
    ensures r.Some? ==> forall j: nat :: j < |r.value.0| ==> !OccursAt(s, pat, j)
  {
    match Find(s, pat)
    case None => None
    case Some(i) =>
      assert s == s[..i] + s[i..i + |pat|] + s[i + |pat|..];
      Some((s[..i], s[i + |pat|..]))
  }

  /** Inverse of `Split`: the pieces glued back with the separator. */
  function Join(pieces: seq<string>, sep: string): string
    requires |pieces| > 0
    decreases |pieces|
  {
    if |pieces| == 1 then pieces[0] else pieces[0] + sep + Join(pieces[1..], sep)
  }

  /** `str::split` with a non-empty pattern, collected: the pieces between
      successive leftmost non-overlapping occurrences of `sep`. */
  function Split(s: string, sep: string): (r: seq<string>)
    requires |sep| > 0
    ensures |r| > 0
    decreases |s|
  {
    match Find(s, sep)
    case None => [s]
    case Some(i) => [s[..i]] + Split(s[i + |sep|..], sep)
  }

  /** Gluing the pieces back together with the separator gives the input
      back, and no piece contains the separator. */
  lemma {:induction false} SplitJoinsBack(s: string, sep: string)
    requires |sep| > 0
    ensures Join(Split(s, sep), sep) == s
    ensures forall k :: 0 <= k < |Split(s, sep)| ==> Free(Split(s, sep)[k], sep)
    decreases |s|
  {
    match Find(s, sep)
    case None =>
    case Some(i) =>
      var head := s[..i];
      assert Free(head, sep) by {
        forall j: nat | j <= |head| ensures !OccursAt(head, sep, j) {
          if j + |sep| <= |head| {
            assert !OccursAt(s, sep, j);
            assert head[j..j + |sep|] == s[j..j + |sep|];
          }
        }
      }
      SplitJoinsBack(s[i + |sep|..], sep);
      assert s == head + sep + s[i + |sep|..];
      var r := Split(s, sep);
      assert r[1..] == Split(s[i + |sep|..], sep);
  }

  /** The first piece of a split is the text before the first separator;
      the remaining pieces are the split of the text after it. */
  lemma SplitUnfold(s: string, sep: string)
    requires |sep| > 0
    ensures var r := Split(s, sep);
            var h := |r[0]|;
            h <= |s| && r[0] == s[..h]
            && (|r| == 1 <==> Free(s, sep))
            && (|r| == 1 ==> r[0] == s)
            && (|r| > 1 ==> OccursAt(s, sep, h) && r[1..] == Split(s[h + |sep|..], sep))
  {
    var r := Split(s, sep);
    match Find(s, sep)
    case None =>
      assert r == [s];
    case Some(i) =>
      var tail := Split(s[i + |sep|..], sep);
      assert r == [s[..i]] + tail;
      var h := |r[0]|;
      assert h == i;
      assert s[h + |sep|..] == s[i + |sep|..];
      assert r[1..] == tail;
  }

  /** No proper suffix of `sep` is also a prefix of it, so two occurrences
      of `sep` cannot overlap. True of "\r\n" and of every single character. */
  predicate Unbordered(sep: string) {
    forall k :: 0 < k < |sep| ==> sep[k..] != sep[..|sep| - k]
  }

  lemma UnborderedFirst(a: string, sep: string, rest: string)
    requires |sep| > 0 && Unbordered(sep) && Free(a, sep)
    ensures Find(a + sep + rest, sep) == Some(|a|)
  {
    var s := a + sep + rest;
    assert OccursAt(s, sep, |a|);
    forall j: nat | j < |a| ensures !OccursAt(s, sep, j) {
      if j + |sep| <= |a| {
        assert s[j..j + |sep|] == a[j..j + |sep|];
        assert !OccursAt(a, sep, j);
      } else if j + |sep| <= |s| {
        var k := |a| - j;
        assert s[j..j + |sep|][k..] == s[|a|..j + |sep|];
        assert s[|a|..j + |sep|] == sep[..|sep| - k];
        assert sep[k..] != sep[..|sep| - k];
      }
    }
  }

  /** Splitting at a first occurrence found after `a` yields `a` first. */
  lemma SplitAtFirst(a: string, sep: string, rest: string)
    requires |sep| > 0 && Find(a + sep + rest, sep) == Some(|a|)
    ensures Split(a + sep + rest, sep) == [a] + Split(rest, sep)
  {
    var s := a + sep + rest;
    assert s[..|a|] == a;
    assert s[|a| + |sep|..] == rest;
  }

  /** `Split` undoes `Join` when no piece contains the separator and the
      separator cannot overlap itself. */
  lemma {:induction false} SplitJoin(pieces: seq<string>, sep: string)
    requires |pieces| > 0 && |sep| > 0 && Unbordered(sep)
    requires forall k :: 0 <= k < |pieces| ==> Free(pieces[k], sep)
    ensures Split(Join(pieces, sep), sep) == pieces
    decreases |pieces|
  {
    var s := Join(pieces, sep);
    if |pieces| == 1 {
      assert Find(s, sep).None?;
    } else {
      var rest := Join(pieces[1..], sep);
      assert s == pieces[0] + sep + rest;
      UnborderedFirst(pieces[0], sep, rest);
      SplitJoin(pieces[1..], sep);
      SplitAtFirst(pieces[0], sep, rest);
      assert pieces == [pieces[0]] + pieces[1..];
    }
  }

  function Count(s: string, c: char): nat
    decreases |s|
  {
    if s == [] then 0 else (if s[0] == c then 1 else 0) + Count(s[1..], c)
  }

  lemma {:induction false} CountAppend(a: string, b: string, c: char)
    ensures Count(a + b, c) == Count(a, c) + Count(b, c)
    decreases |a|
  {
    if a != [] {
      assert (a + b)[1..] == a[1..] + b;
      CountAppend(a[1..], b, c);
    } else {
      assert a + b == b;
    }
  }

  lemma {:induction false} CountAbsent(s: string, c: char)
    requires c !in s
    ensures Count(s, c) == 0
    decreases |s|
  {
    if s != [] {
      CountAbsent(s[1..], c);
    }
  }

  /** Splitting on a character gives one more piece than there are
      occurrences of the character. */
  lemma {:induction false} SplitCount(s: string, c: char)
    ensures |Split(s, [c])| == Count(s, c) + 1
    decreases |s|
  {
    var r := Split(s, [c]);
    SplitUnfold(s, [c]);
    var h := |r[0]|;
    if |r| == 1 {
      CharAbsentBefore(s, c, |s|);
      assert s[..|s|] == s;
      CountAbsent(s, c);
    } else {
      CharAbsentBefore(s, c, h);
      assert s[h..h + 1] == [c];
      assert s == s[..h] + [c] + s[h + 1..];
      CountAppend(s[..h] + [c], s[h + 1..], c);
      CountAppend(s[..h], [c], c);
      CountAbsent(s[..h], c);
      SplitCount(s[h + 1..], c);
    }
  }

  lemma {:induction false} CountPositive(s: string, c: char)
    requires c in s
    ensures Count(s, c) > 0
    decreases |s|
  {
    if s[0] != c {
      assert c in s[1..];
      CountPositive(s[1..], c);
    }
  }

  /** Splitting on a character gives at least two pieces exactly when the
      character occurs. */
  lemma SplitInTwo(s: string, c: char)
    ensures |Split(s, [c])| >= 2 <==> c in s
  {
    SplitCount(s, c);
    if c in s {
      CountPositive(s, c);
    } else {
      CountAbsent(s, c);
    }
  }

  /** Collecting an iterator of strings into one `String`, or appending
      byte chunks to one buffer: concatenation with no separator. */
  function Concat<T>(pieces: seq<seq<T>>): seq<T>
    decreases |pieces|
  {
    if pieces == [] then [] else pieces[0] + Concat(pieces[1..])
  }

  /** Concatenation grows one piece at a time at the end. */
  lemma {:induction false} ConcatSnoc<T>(pieces: seq<seq<T>>, last: seq<T>)
    ensures Concat(pieces + [last]) == Concat(pieces) + last
    decreases |pieces|
  {
    if pieces == [] {
      assert [] + [last] == [last];
      assert [last][1..] == [];
    } else {
      assert (pieces + [last])[1..] == pieces[1..] + [last];
      ConcatSnoc(pieces[1..], last);
    }
  }
}
