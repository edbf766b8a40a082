/** Tag stripping: `lex` (src/browser.rs). One flag says whether the scan is
    inside a tag; '<' sets it, '>' clears it, both are dropped, and every
    other character is kept only while the flag is clear. */
module Lexer {

  datatype LexState = LexState(inAngle: bool, out: string)

  /** One iteration of the loop over `body.chars()`. */
  function Step(st: LexState, c: char): LexState {
    if c == '<' then LexState(true, st.out)
    else if c == '>' then LexState(false, st.out)
    else if !st.inAngle then LexState(st.inAngle, st.out + [c])
    else st
  }

  /** The state after scanning `t` from `st`, one `Step` per character. */
  function Continue(st: LexState, t: string): LexState
    decreases |t|
  {
    if t == [] then st else Step(Continue(st, t[..|t| - 1]), t[|t| - 1])
  }

  /** The state after scanning `s` from the initial state: outside a tag,
      nothing output. */
  function Scan(s: string): LexState {
    Continue(LexState(false, ""), s)
  }

  /** What `lex` returns. */
  function Lexed(s: string): string {
    Scan(s).out
  }

  predicate NoAngles(s: string) {
    '<' !in s && '>' !in s
  }

  /** `t` can be obtained from `s` by deleting characters. */
  ghost predicate IsSubsequence(t: string, s: string)
    decreases |s|
  {
    t == [] ||
    (s != [] &&
      ((t[|t| - 1] == s[|s| - 1] && IsSubsequence(t[..|t| - 1], s[..|s| - 1]))
       || IsSubsequence(t, s[..|s| - 1])))
  }

  /** `lex`: the loop with its flag and output buffer. */
  method Lex(body: string) returns (parsed: string)
    ensures parsed == Lexed(body)
    ensures NoAngles(parsed)
    ensures |parsed| <= |body|
  {
    parsed := "";
    var inAngle := false;
    for i := 0 to |body|
      invariant Scan(body[..i]) == LexState(inAngle, parsed)
    {
      var c := body[i];
      assert body[..i + 1][..i] == body[..i];
      if c == '<' {
        inAngle := true;
      } else if c == '>' {
        inAngle := false;
      } else if !inAngle {
        parsed := parsed + [c];
      }
    }
    assert body[..|body|] == body;
    LexedNoAngles(body);
    LexedSubsequence(body);
    SubsequenceLength(parsed, body);
  }

  lemma {:induction false} ScanNoAngles(s: string)
    ensures NoAngles(Scan(s).out)
    decreases |s|
  {
    if s != [] {
      ScanNoAngles(s[..|s| - 1]);
    }
  }

  /** The output contains no '<' and no '>'. */
  lemma LexedNoAngles(s: string)
    ensures NoAngles(Lexed(s))
  {
    ScanNoAngles(s);
  }

  /** The output keeps characters of the input, in order. */
  lemma {:induction false} LexedSubsequence(s: string)
    ensures IsSubsequence(Lexed(s), s)
    decreases |s|
  {
    if s != [] {
      var p := s[..|s| - 1];
      LexedSubsequence(p);
      var before := Scan(p);
      var after := Scan(s);
      if after.out != before.out {
        assert after.out == before.out + [s[|s| - 1]];
        assert after.out[..|after.out| - 1] == before.out;
      }
    }
  }

  lemma {:induction false} SubsequenceLength(t: string, s: string)
    requires IsSubsequence(t, s)
    ensures |t| <= |s|
    decreases |s|
  {
    if t != [] {
      if t[|t| - 1] == s[|s| - 1] && IsSubsequence(t[..|t| - 1], s[..|s| - 1]) {
        SubsequenceLength(t[..|t| - 1], s[..|s| - 1]);
      } else {
        SubsequenceLength(t, s[..|s| - 1]);
      }
    }
  }

  /** The output is never longer than the input. */
  lemma LexedLength(s: string)
    ensures |Lexed(s)| <= |s|
  {
    LexedSubsequence(s);
    SubsequenceLength(Lexed(s), s);
  }

  lemma {:induction false} ScanPlain(s: string)
    requires NoAngles(s)
    ensures Scan(s) == LexState(false, s)
    decreases |s|
  {
    if s != [] {
      ScanPlain(s[..|s| - 1]);
      assert s[..|s| - 1] + [s[|s| - 1]] == s;
    }
  }

  /** Text without angle brackets passes through unchanged. */
  lemma LexedPlain(s: string)
    requires NoAngles(s)
    ensures Lexed(s) == s
  {
    ScanPlain(s);
  }

  /** Stripping twice is stripping once. */
  lemma LexedIdempotent(s: string)
    ensures Lexed(Lexed(s)) == Lexed(s)
  {
    LexedNoAngles(s);
    LexedPlain(Lexed(s));
  }


  lemma ScanAppend(s: string, t: string)
    ensures Scan(s + t) == Continue(Scan(s), t)
  {
    ContinueSplit(LexState(false, ""), s, t);
  }

  lemma {:induction false} ContinueInTag(st: LexState, t: string)
    requires st.inAngle && '>' !in t
    ensures Continue(st, t) == st
    decreases |t|
  {
    if t != [] {
      ContinueInTag(st, t[..|t| - 1]);
    }
  }

  lemma {:induction false} ContinuePlain(st: LexState, t: string)
    requires !st.inAngle && NoAngles(t)
    ensures Continue(st, t) == LexState(false, st.out + t)
    decreases |t|
  {
    if t == [] {
      assert st.out + t == st.out;
    } else {
      ContinuePlain(st, t[..|t| - 1]);
      assert st.out + t[..|t| - 1] + [t[|t| - 1]] == st.out + t;
    }
  }

  lemma {:induction false} ContinueSplit(st: LexState, a: string, b: string)
    ensures Continue(st, a + b) == Continue(Continue(st, a), b)
    decreases |b|
  {
    if b == [] {
      assert a + b == a;
    } else {
      assert (a + b)[..|a + b| - 1] == a + b[..|b| - 1];
      ContinueSplit(st, a, b[..|b| - 1]);
    }
  }

  lemma ContinueOne(st: LexState, c: char)
    ensures Continue(st, [c]) == Step(st, c)
  {
    assert [c][..0] == [];
  }

  /** After a '<' with no '>' following it, nothing more is output: an
      unclosed tag swallows the rest of the input. */
  lemma UnclosedTag(s: string, t: string)
    requires '>' !in t
    ensures Scan(s + "<" + t) == LexState(true, Lexed(s))
  {
    ScanAppend(s, "<" + t);
    ContinueSplit(Scan(s), "<", t);
    ContinueOne(Scan(s), '<');
    ContinueInTag(Continue(Scan(s), "<"), t);
    assert s + "<" + t == s + ("<" + t);
  }

  /** A complete tag contributes nothing to the output and leaves the scan
      outside any tag, whatever came before it. */
  lemma ClosedTag(s: string, tag: string)
    requires '>' !in tag
    ensures Scan(s + "<" + tag + ">") == LexState(false, Lexed(s))
  {
    UnclosedTag(s, tag);
    ScanAppend(s + "<" + tag, ">");
    ContinueOne(Scan(s + "<" + tag), '>');
  }

  /** Text without angle brackets, read outside a tag, is copied. */
  lemma PlainAfter(s: string, t: string)
    requires !Scan(s).inAngle && NoAngles(t)
    ensures Scan(s + t) == LexState(false, Lexed(s) + t)
  {
    ScanAppend(s, t);
    ContinuePlain(Scan(s), t);
  }

  /** Text around two tags keeps only the text: the tags go, with their
      names and anything else written inside the brackets. */
  lemma TwoTags(a: string, tag1: string, b: string, tag2: string, c: string)
    requires NoAngles(a) && NoAngles(b) && NoAngles(c)
    requires '>' !in tag1 && '>' !in tag2
    ensures Lexed(a + "<" + tag1 + ">" + b + "<" + tag2 + ">" + c) == a + b + c
  {
    var s1 := a + "<" + tag1 + ">";
    var s2 := s1 + b;
    var s3 := s2 + "<" + tag2 + ">";
    ScanPlain(a);
    ClosedTag(a, tag1);
    PlainAfter(s1, b);
    ClosedTag(s2, tag2);
    PlainAfter(s3, c);
  }

  /** A whole tag: '<', then anything but '>', then '>'. */
  predicate IsTag(t: string) {
    |t| >= 2 && t[0] == '<' && t[|t| - 1] == '>' && '>' !in t[1..|t| - 1]
  }

  /** A whole tag followed by plain text adds just that text to the output. */
  lemma TagThenText(s: string, tag: string, t: string)
    requires IsTag(tag) && NoAngles(t)
    ensures Lexed(s + tag + t) == Lexed(s) + t
  {
    var name := tag[1..|tag| - 1];
    assert tag == "<" + name + ">";
    ClosedTag(s, name);
    assert s + "<" + name + ">" == s + tag;
    PlainAfter(s + tag, t);
  }

  /** Text nested in two tags, followed by a trailer, renders as the text
      and the trailer: the four tags go. */
  lemma Nested(outer: string, inner: string, w: string, innerEnd: string, outerEnd: string, trailer: string)
    requires IsTag(outer) && IsTag(inner) && IsTag(innerEnd) && IsTag(outerEnd)
    requires NoAngles(w) && NoAngles(trailer)
    ensures Lexed(outer + inner + w + innerEnd + outerEnd + trailer) == w + trailer
  {
    var p0 := "" + outer + "";
    var p1 := p0 + inner + w;
    var p2 := p1 + innerEnd + "";
    assert Lexed("") == "";
    TagThenText("", outer, "");
    TagThenText(p0, inner, w);
    TagThenText(p1, innerEnd, "");
    TagThenText(p2, outerEnd, trailer);
    assert p0 == outer && p2 == p1 + innerEnd;
  }

  /** A one-word page renders as that word followed by the newline that
      ends the page: the newline after "</html>" is text outside any tag
      and is kept. */
  lemma LexHiPage(page: string)
    requires page == "<html><body>Hi</body></html>\n"
    ensures Lexed(page) == "Hi\n"
  {
    var outer, inner, innerEnd, outerEnd := "<html>", "<body>", "</body>", "</html>";
    Nested(outer, inner, "Hi", innerEnd, outerEnd, "\n");
    assert outer + inner + "Hi" + innerEnd + outerEnd + "\n" == page;
  }

  /** Example: tags are dropped with their contents, `lex("a<b>c</b>d") == "acd"`. */
  lemma LexExample()
    ensures Lexed("a<b>c</b>d") == "acd"
  {
    TwoTags("a", "b", "c", "/b", "d");
    assert "a" + "<" + "b" + ">" + "c" + "<" + "/b" + ">" + "d" == "a<b>c</b>d";
  }

  /** Markup alone yields nothing. */
  lemma LexMarkupOnly()
    ensures Lexed("<a><b>") == ""
  {
    ClosedTag("", "a");
    assert Scan("<a>") == LexState(false, "") by {
      assert "" + "<" + "a" + ">" == "<a>";
    }
    ClosedTag("<a>", "b");
    assert "<a>" + "<" + "b" + ">" == "<a><b>";
  }
}
