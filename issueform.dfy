/** The body an access-request issue form produces, and the extraction of
    index.js:36-42 run over it.  The form renders each field as a section
    `### <heading>`, a blank line and the answer; the sections are separated
    by blank lines; and the body reaches index.js with its line breaks
    escaped as backslash-n.  For answers that are plain single-line text,
    every field reads back exactly as it was entered. */
module IssueForm {
  import opened JsText
  import opened Extraction

  /** `### <heading>`, a blank line, then the answer. */
  function Section(f: Field, answer: string): string {
    SectionMarker + " " + PatternOf(f).heading + EscapedBlankLine + answer
  }

  /** The body of a request: the four sections in form order, with the
      PM/COR email, the one field read without a closing `###`, last. */
  function Render(name: string, email: string, username: string, pm: string): string {
    Section(FullName, name) + EscapedBlankLine + Section(Email, email) + EscapedBlankLine +
    Section(GitHubUsername, username) + EscapedBlankLine + Section(PmEmail, pm)
  }

  /** No character of `s` ends a line, so `.` can run across all of it. */
  predicate OneLine(s: string) {
    forall c :: c in s ==> !IsLineTerminator(c)
  }

  /** An answer the layout carries through unchanged: on one line, with no
      backslash (so no escaped line break), no `#`, and no white space at
      either end. */
  predicate PlainAnswer(v: string) {
    '\\' !in v && '#' !in v && OneLine(v) &&
    (v == [] || (!IsJsSpace(v[0]) && !IsJsSpace(v[|v| - 1])))
  }

  predicate HeadingChar(c: char) {
    ('A' <= c <= 'Z') || ('a' <= c <= 'z') || c == ' ' || c == '/'
  }

  /** A heading the lemmas below can place: it starts with a capital and
      holds only letters, spaces and slashes -- in particular no backslash,
      no `#` and no line terminator. */
  predicate Placeable(h: string) {
    h != [] && 'A' <= h[0] <= 'Z' && forall i :: 0 <= i < |h| ==> HeadingChar(h[i])
  }

  lemma PlaceableFacts(h: string)
    requires Placeable(h)
    ensures OneLine(h) && '#' !in h && '\\' !in h
    ensures h[0] != 'n' && h[0] != '#' && h[0] != ' '
  {
    forall c | c in h ensures HeadingChar(c) {
      var i :| 0 <= i < |h| && h[i] == c;
    }
  }

  lemma HeadingPlaceable(f: Field)
    ensures Placeable(PatternOf(f).heading)
  {
    match f
    case FullName =>
    case Email =>
    case PmEmail =>
    case GitHubUsername =>
  }

  // ---------------------------------------------------------------------
  // where the regular expression can match

  lemma OneLineHasNoBreak(s: string)
    requires OneLine(s)
    ensures NoLineBreak(s, 0, |s|)
  {
    forall t | 0 <= t < |s| ensures !IsLineTerminator(s[t]) {
      assert s[t] in s;
    }
  }

  lemma OneLineJoined(a: string, b: string)
    requires OneLine(a) && OneLine(b)
    ensures OneLine(a + b)
  {
  }

  lemma SectionOneLine(f: Field, v: string)
    requires OneLine(v)
    ensures OneLine(Section(f, v))
  {
    var h := PatternOf(f).heading;
    HeadingPlaceable(f);
    PlaceableFacts(h);
    assert OneLine(EscapedBlankLine);
    assert OneLine(SectionMarker + " ");
    OneLineJoined(SectionMarker + " ", h);
    OneLineJoined(SectionMarker + " " + h, EscapedBlankLine);
    OneLineJoined(SectionMarker + " " + h + EscapedBlankLine, v);
  }

  /** A form of one-line answers is one line of text. */
  lemma RenderOneLine(name: string, email: string, username: string, pm: string)
    requires OneLine(name) && OneLine(email) && OneLine(username) && OneLine(pm)
    ensures OneLine(Render(name, email, username, pm))
  {
    var sep := EscapedBlankLine;
    var s1, s2 := Section(FullName, name), Section(Email, email);
    var s3, s4 := Section(GitHubUsername, username), Section(PmEmail, pm);
    SectionOneLine(FullName, name);
    SectionOneLine(Email, email);
    SectionOneLine(GitHubUsername, username);
    SectionOneLine(PmEmail, pm);
    assert OneLine(sep);
    OneLineJoined(s1, sep);
    OneLineJoined(s1 + sep, s2);
    OneLineJoined(s1 + sep + s2, sep);
    OneLineJoined(s1 + sep + s2 + sep, s3);
    OneLineJoined(s1 + sep + s2 + sep + s3, sep);
    OneLineJoined(s1 + sep + s2 + sep + s3 + sep, s4);
  }

  /** A text whose first character is missing from `s` does not occur in it. */
  lemma FirstCharAbsent(s: string, h: string)
    requires h != [] && h[0] !in s
    ensures !Occurs(s, h)
  {
    forall i: nat | i < |s| ensures !OccursAt(s, h, i) {
      assert s[i] in s;
    }
  }

  /** An occurrence of `a + b` holds an occurrence of `b`. */
  lemma OccursInLonger(s: string, a: string, b: string)
    requires !Occurs(s, b)
    ensures !Occurs(s, a + b)
  {
    forall i: nat | OccursAt(s, a + b, i) ensures OccursAt(s, b, i + |a|) {
      assert s[i + |a|..][..|b|] == s[i..][..|a + b|][|a|..];
    }
  }

  /** Neither side of a separator holding a placeable heading, the whole
      does not hold it. */
  lemma AbsentAroundSep(a: string, b: string, h: string)
    requires Placeable(h) && !Occurs(a, h) && !Occurs(b, h)
    ensures !Occurs(a + EscapedBlankLine + b, h)
  {
    PlaceableFacts(h);
    forall i: nat | OccursAt(a + EscapedBlankLine + b, h, i)
      ensures OccursAt(a, h, i) || (|a| + 4 <= i && OccursAt(b, h, i - |a| - 4))
    {
      OccursBesideSep(a, b, h, i);
    }
  }

  /** A placeable heading that is not in the text `z` before a section
      does not occur before the heading of that section. */
  lemma NotBeforeSection(body: string, z: string, h: string, rest: string)
    requires Placeable(h) && !Occurs(z, h)
    requires body == z + EscapedBlankLine + (SectionMarker + " " + rest)
    ensures forall i: nat :: i < |z| + 8 ==> !OccursAt(body, h, i)
  {
    PlaceableFacts(h);
    forall i: nat | i < |z| + 8 && OccursAt(body, h, i)
      ensures OccursAt(z, h, i) || (|z| + 4 <= i && OccursAt(SectionMarker + " " + rest, h, i - |z| - 4))
    {
      OccursBesideSep(z, SectionMarker + " " + rest, h, i);
    }
    forall i: nat | |z| + 4 <= i < |z| + 8 ensures body[i] in "### " {
      assert body[i] == "### "[i - |z| - 4];
    }
  }

  /** A placeable heading does not occur inside the `### ` that opens the
      body. */
  lemma NotBeforeFirstSection(body: string, h: string, rest: string)
    requires Placeable(h)
    requires body == SectionMarker + " " + rest
    ensures forall i: nat :: i < 4 ==> !OccursAt(body, h, i)
  {
    PlaceableFacts(h);
    forall i: nat | i < 4 ensures body[i] in "### " {
      assert body[i] == "### "[i];
    }
  }

  /** `.+###` matched at `pre`: when its heading does not occur earlier and
      no `#` follows the matched text `m`, the field is read from `m`. */
  lemma TerminatedMatch(body: string, f: Field, pre: string, m: string, tail: string)
    requires PatternOf(f).terminated
    requires body == pre + m + tail
    requires PatternOf(f).heading <= m && |PatternOf(f).heading| + 4 <= |m|
    requires m[|m| - 3..] == SectionMarker
    requires OneLine(body) && '#' !in tail
    requires forall i: nat :: i < |pre| ==> !OccursAt(body, PatternOf(f).heading, i)
    ensures FieldText(body, f) == SecondPiece(m)
  {
    var p := PatternOf(f);
    var i0, e0 := |pre|, |pre| + |m|;
    assert body[i0..e0] == m;
    assert body[i0..][..|p.heading|] == m[..|p.heading|];
    assert body[e0 - 3..e0] == m[|m| - 3..];
    OneLineHasNoBreak(body);
    assert MatchAt(body, p, i0, e0);
    // a longer match would end in a `###` within `tail`
    forall k: nat | e0 <= k < |body| ensures body[k] in tail {
      assert body[k] == tail[k - e0];
    }
    forall e: nat | MarkerEndsAt(body, e) ensures body[e - 1] == '#' {
      assert body[e - 1] == body[e - 3..e][2];
    }
    assert LeftmostLongest(body, p, i0, e0);
  }

  /** `.+` matched at `pre`: when its heading does not occur earlier, the
      match runs to the end of the (single-line) body. */
  lemma UnterminatedMatch(body: string, f: Field, pre: string, m: string)
    requires !PatternOf(f).terminated
    requires body == pre + m
    requires PatternOf(f).heading <= m && |PatternOf(f).heading| < |m|
    requires OneLine(body)
    requires forall i: nat :: i < |pre| ==> !OccursAt(body, PatternOf(f).heading, i)
    ensures FieldText(body, f) == SecondPiece(m)
  {
    var p := PatternOf(f);
    assert body[|pre|..] == m;
    OneLineHasNoBreak(body);
    assert MatchAt(body, p, |pre|, |body|);
    assert LeftmostLongest(body, p, |pre|, |body|);
    assert body[|pre|..|body|] == m;
  }

  // ---------------------------------------------------------------------
  // one field

  /** Split a section's matched text: piece [1] is the answer, when the
      answer is followed by a separator or ends the text. */
  lemma SectionPieces(h: string, v: string, rest: string)
    requires '\\' !in h && '\\' !in v
    requires rest == [] || EscapedBlankLine <= rest
    ensures var pieces := Split(h + EscapedBlankLine + v + rest);
      |pieces| >= 2 && pieces[1] == v
  {
    SplitAfter(h, v + rest);
    assert h + EscapedBlankLine + v + rest == h + EscapedBlankLine + (v + rest);
    if rest == [] {
      SplitWhole(v);
      assert v + rest == v;
    } else {
      var w := rest[|EscapedBlankLine|..];
      assert v + rest == v + EscapedBlankLine + w;
      SplitAfter(v, w);
    }
  }

  /** Piece [1] of a section's matched text, trimmed, is its answer. */
  lemma SectionSecondPiece(h: string, v: string, rest: string)
    requires '\\' !in h && PlainAnswer(v)
    requires rest == [] || EscapedBlankLine <= rest
    ensures SecondPiece(h + EscapedBlankLine + v + rest) == Some(v)
  {
    SectionPieces(h, v, rest);
    TrimPadded([], v, []);
    assert [] + v + [] == v;
  }

  /** A field read with `.+###`: when its heading does not occur earlier,
      the match runs from the heading to the `###` that opens the last
      section, and piece [1] of it is the answer. */
  lemma TerminatedFieldReads(body: string, f: Field, pre: string, v: string, w: string, tail: string)
    requires PatternOf(f).terminated && '\\' !in PatternOf(f).heading
    requires body == pre + (PatternOf(f).heading + EscapedBlankLine + v + (EscapedBlankLine + w + SectionMarker)) + tail
    requires OneLine(body) && PlainAnswer(v) && '#' !in tail
    requires forall i: nat :: i < |pre| ==> !OccursAt(body, PatternOf(f).heading, i)
    ensures FieldText(body, f) == Some(v)
  {
    var h := PatternOf(f).heading;
    var rest := EscapedBlankLine + w + SectionMarker;
    var m := h + EscapedBlankLine + v + rest;
    assert m[|m| - 3..] == SectionMarker by {
      assert m == (h + EscapedBlankLine + v + EscapedBlankLine + w) + SectionMarker;
    }
    assert m == h + (EscapedBlankLine + v + rest);
    TerminatedMatch(body, f, pre, m, tail);
    SectionSecondPiece(h, v, rest);
  }

  /** The field read with `.+`: when its heading does not occur earlier and
      its section is the last, the match runs to the end of the body, and
      piece [1] of it is the answer. */
  lemma UnterminatedFieldReads(body: string, f: Field, pre: string, v: string)
    requires !PatternOf(f).terminated && '\\' !in PatternOf(f).heading
    requires body == pre + (PatternOf(f).heading + EscapedBlankLine + v)
    requires OneLine(body) && PlainAnswer(v)
    requires forall i: nat :: i < |pre| ==> !OccursAt(body, PatternOf(f).heading, i)
    ensures FieldText(body, f) == Some(v)
  {
    var h := PatternOf(f).heading;
    var m := h + EscapedBlankLine + v;
    assert m == h + (EscapedBlankLine + v);
    UnterminatedMatch(body, f, pre, m);
    SectionSecondPiece(h, v, []);
    assert m == h + EscapedBlankLine + v + [];
  }

  // ---------------------------------------------------------------------
  // the whole request

  // Regrouping the concatenation that `Render` builds, one field at a time:
  // the text before the field's heading, the matched text, the rest.

  lemma RegroupFirst(m: string, sp: string, s: string, h: string, v: string, s2: string, s3: string, h4: string, pm: string)
    ensures var w := s2 + s + s3 + s;
      var matched := h + s + v + (s + w + m);
      var tail := sp + h4 + s + pm;
      (m + sp + h + s + v) + s + s2 + s + s3 + s + (m + sp + h4 + s + pm) == (m + sp) + matched + tail &&
      (m + sp) + matched + tail == m + sp + (matched + tail)
  {
  }

  lemma RegroupSecond(m: string, sp: string, s: string, s1: string, h: string, v: string, s3: string, h4: string, pm: string)
    ensures var w := s3 + s;
      var matched := h + s + v + (s + w + m);
      var tail := sp + h4 + s + pm;
      s1 + s + (m + sp + h + s + v) + s + s3 + s + (m + sp + h4 + s + pm) == s1 + s + m + sp + matched + tail &&
      s1 + s + m + sp + matched + tail == s1 + s + (m + sp + (matched + tail))
  {
  }

  lemma RegroupThird(m: string, sp: string, s: string, s1: string, s2: string, h: string, v: string, h4: string, pm: string)
    ensures var matched := h + s + v + (s + [] + m);
      var tail := sp + h4 + s + pm;
      s1 + s + s2 + s + (m + sp + h + s + v) + s + (m + sp + h4 + s + pm) == s1 + s + s2 + s + m + sp + matched + tail &&
      s1 + s + s2 + s + m + sp + matched + tail == (s1 + s + s2) + s + (m + sp + (matched + tail))
  {
  }

  lemma RegroupLast(m: string, sp: string, s: string, s1: string, s2: string, s3: string, h: string, v: string)
    ensures var matched := h + s + v;
      s1 + s + s2 + s + s3 + s + (m + sp + h + s + v) == s1 + s + s2 + s + s3 + s + m + sp + matched &&
      s1 + s + s2 + s + s3 + s + m + sp + matched == (s1 + s + s2 + s + s3) + s + (m + sp + matched)
  {
  }

  // The headings of the sections before a field do not hold its heading:
  // each heading starts with a capital letter found in no earlier heading.

  lemma EmailApart()
    ensures !Occurs(SectionMarker + " " + PatternOf(FullName).heading, PatternOf(Email).heading)
  {
    FirstCharAbsent(SectionMarker + " " + PatternOf(FullName).heading, PatternOf(Email).heading);
  }

  lemma UsernameApart()
    ensures !Occurs(SectionMarker + " " + PatternOf(FullName).heading, PatternOf(GitHubUsername).heading)
    ensures !Occurs(SectionMarker + " " + PatternOf(Email).heading, PatternOf(GitHubUsername).heading)
  {
    FirstCharAbsent(SectionMarker + " " + PatternOf(FullName).heading, PatternOf(GitHubUsername).heading);
    FirstCharAbsent(SectionMarker + " " + PatternOf(Email).heading, PatternOf(GitHubUsername).heading);
  }

  lemma PmEmailApart()
    ensures !Occurs(SectionMarker + " " + PatternOf(FullName).heading, PatternOf(PmEmail).heading)
    ensures !Occurs(SectionMarker + " " + PatternOf(Email).heading, PatternOf(PmEmail).heading)
    ensures !Occurs(SectionMarker + " " + PatternOf(GitHubUsername).heading, PatternOf(PmEmail).heading)
  {
    FirstCharAbsent(SectionMarker + " " + PatternOf(FullName).heading, PatternOf(PmEmail).heading);
    FirstCharAbsent(SectionMarker + " " + PatternOf(Email).heading, PatternOf(PmEmail).heading);
    FirstCharAbsent(SectionMarker + " " + PatternOf(GitHubUsername).heading, PatternOf(PmEmail).heading);
  }

  lemma FullNameReads(name: string, email: string, username: string, pm: string)
    requires PlainAnswer(name) && PlainAnswer(email) && PlainAnswer(username) && PlainAnswer(pm)
    ensures FieldText(Render(name, email, username, pm), FullName) == Some(name)
  {
    var body := Render(name, email, username, pm);
    var sep := EscapedBlankLine;
    var h, h4 := PatternOf(FullName).heading, PatternOf(PmEmail).heading;
    var s2, s3 := Section(Email, email), Section(GitHubUsername, username);
    var w := s2 + sep + s3 + sep;
    var matched := h + sep + name + (sep + w + SectionMarker);
    var tail := " " + h4 + sep + pm;
    RegroupFirst(SectionMarker, " ", sep, h, name, s2, s3, h4, pm);
    RenderOneLine(name, email, username, pm);
    HeadingPlaceable(FullName);
    HeadingPlaceable(PmEmail);
    PlaceableFacts(h);
    PlaceableFacts(h4);
    NotBeforeFirstSection(body, h, matched + tail);
    TerminatedFieldReads(body, FullName, SectionMarker + " ", name, w, tail);
  }

  lemma EmailReads(name: string, email: string, username: string, pm: string)
    requires PlainAnswer(name) && PlainAnswer(email) && PlainAnswer(username) && PlainAnswer(pm)
    requires !Occurs(name, PatternOf(Email).heading)
    ensures FieldText(Render(name, email, username, pm), Email) == Some(email)
  {
    var body := Render(name, email, username, pm);
    var sep := EscapedBlankLine;
    var h, h4 := PatternOf(Email).heading, PatternOf(PmEmail).heading;
    var s1, s3 := Section(FullName, name), Section(GitHubUsername, username);
    var w := s3 + sep;
    var matched := h + sep + email + (sep + w + SectionMarker);
    var tail := " " + h4 + sep + pm;
    RegroupSecond(SectionMarker, " ", sep, s1, h, email, s3, h4, pm);
    RenderOneLine(name, email, username, pm);
    HeadingPlaceable(Email);
    HeadingPlaceable(PmEmail);
    PlaceableFacts(h);
    PlaceableFacts(h4);
    EmailApart();
    AbsentAroundSep(SectionMarker + " " + PatternOf(FullName).heading, name, h);
    NotBeforeSection(body, s1, h, matched + tail);
    TerminatedFieldReads(body, Email, s1 + sep + SectionMarker + " ", email, w, tail);
  }

  lemma UsernameReads(name: string, email: string, username: string, pm: string)
    requires PlainAnswer(name) && PlainAnswer(email) && PlainAnswer(username) && PlainAnswer(pm)
    requires !Occurs(name, PatternOf(GitHubUsername).heading) && !Occurs(email, PatternOf(GitHubUsername).heading)
    ensures FieldText(Render(name, email, username, pm), GitHubUsername) == Some(username)
  {
    var body := Render(name, email, username, pm);
    var sep := EscapedBlankLine;
    var h, h4 := PatternOf(GitHubUsername).heading, PatternOf(PmEmail).heading;
    var s1, s2 := Section(FullName, name), Section(Email, email);
    var matched := h + sep + username + (sep + [] + SectionMarker);
    var tail := " " + h4 + sep + pm;
    RegroupThird(SectionMarker, " ", sep, s1, s2, h, username, h4, pm);
    RenderOneLine(name, email, username, pm);
    HeadingPlaceable(GitHubUsername);
    HeadingPlaceable(PmEmail);
    PlaceableFacts(h);
    PlaceableFacts(h4);
    UsernameApart();
    AbsentAroundSep(SectionMarker + " " + PatternOf(FullName).heading, name, h);
    AbsentAroundSep(SectionMarker + " " + PatternOf(Email).heading, email, h);
    AbsentAroundSep(s1, s2, h);
    NotBeforeSection(body, s1 + sep + s2, h, matched + tail);
    TerminatedFieldReads(body, GitHubUsername, s1 + sep + s2 + sep + SectionMarker + " ", username, [], tail);
  }

  lemma PmEmailReads(name: string, email: string, username: string, pm: string)
    requires PlainAnswer(name) && PlainAnswer(email) && PlainAnswer(username) && PlainAnswer(pm)
    requires !Occurs(name, PatternOf(Email).heading)
    requires !Occurs(email, PatternOf(PmEmail).heading) && !Occurs(username, PatternOf(PmEmail).heading)
    ensures FieldText(Render(name, email, username, pm), PmEmail) == Some(pm)
  {
    var body := Render(name, email, username, pm);
    var sep := EscapedBlankLine;
    var h := PatternOf(PmEmail).heading;
    var s1, s2, s3 := Section(FullName, name), Section(Email, email), Section(GitHubUsername, username);
    var matched := h + sep + pm;
    RegroupLast(SectionMarker, " ", sep, s1, s2, s3, h, pm);
    RenderOneLine(name, email, username, pm);
    HeadingPlaceable(PmEmail);
    PlaceableFacts(h);
    PmEmailApart();
    assert h == "PM/COR " + PatternOf(Email).heading;
    OccursInLonger(name, "PM/COR ", PatternOf(Email).heading);
    AbsentAroundSep(SectionMarker + " " + PatternOf(FullName).heading, name, h);
    AbsentAroundSep(SectionMarker + " " + PatternOf(Email).heading, email, h);
    AbsentAroundSep(SectionMarker + " " + PatternOf(GitHubUsername).heading, username, h);
    AbsentAroundSep(s1, s2, h);
    AbsentAroundSep(s1 + sep + s2, s3, h);
    NotBeforeSection(body, s1 + sep + s2 + sep + s3, h, matched);
    UnterminatedFieldReads(body, PmEmail, s1 + sep + s2 + sep + s3 + sep + SectionMarker + " ", pm);
  }

  /** Extraction inverts the form: for plain answers, and as long as no
      answer holds the heading of a later section, every field reads back
      as entered, and the username goes through the `@` rule. */
  lemma RenderedFormReadsBack(name: string, email: string, username: string, pm: string)
    requires PlainAnswer(name) && PlainAnswer(email) && PlainAnswer(username) && PlainAnswer(pm)
    requires !Occurs(name, "Email") && !Occurs(name, "GitHub Username")
    requires !Occurs(email, "GitHub Username") && !Occurs(email, "PM/COR Email")
    requires !Occurs(username, "PM/COR Email")
    ensures ExtractRequest(Render(name, email, username, pm)) ==
            Extracted(Request(name, email, pm, NormalizeUsername(username)))
  {
    FullNameReads(name, email, username, pm);
    EmailReads(name, email, username, pm);
    UsernameReads(name, email, username, pm);
    PmEmailReads(name, email, username, pm);
  }

  /** A username entered as a mention, `@login`, reads back as the bare
      login. */
  lemma MentionReadsBack(name: string, email: string, login: string, pm: string)
    requires PlainAnswer(name) && PlainAnswer(email) && PlainAnswer("@" + login) && PlainAnswer(pm)
    requires '@' !in login
    requires !Occurs(name, "Email") && !Occurs(name, "GitHub Username")
    requires !Occurs(email, "GitHub Username") && !Occurs(email, "PM/COR Email")
    requires !Occurs("@" + login, "PM/COR Email")
    ensures ExtractRequest(Render(name, email, "@" + login, pm)) == Extracted(Request(name, email, pm, login))
  {
    RenderedFormReadsBack(name, email, "@" + login, pm);
    assert ("@" + login)[1..] == login;
  }
}
