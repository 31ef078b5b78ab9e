/** The JavaScript string primitives that index.js relies on when it picks the
    request fields out of the issue body: `includes`, `split` with a string
    separator, `trim`, and the line terminators that stop a regular
    expression's `.`.  Strings are sequences of characters; JavaScript's
    UTF-16 code units are not modelled separately. */
module JsText {

  datatype Option<T> = None | Some(value: T)

  /** The characters `.` in a regular expression without the `s` flag does
      not match: LF, CR, LINE SEPARATOR and PARAGRAPH SEPARATOR. */
  predicate IsLineTerminator(c: char) {
    c == '\n' || c == '\r' || c == '\U{2028}' || c == '\U{2029}'
  }

  /** The characters `String.prototype.trim` removes: the ECMAScript
      WhiteSpace set (tab, vertical tab, form feed, space, no-break space,
      byte order mark and the other space separators) and the line
      terminators. */
  const JsSpaces: set<char> := {
    '\t', '\U{000B}', '\U{000C}', ' ', '\U{00A0}', '\U{FEFF}', '\U{1680}',
    '\U{2000}', '\U{2001}', '\U{2002}', '\U{2003}', '\U{2004}', '\U{2005}',
    '\U{2006}', '\U{2007}', '\U{2008}', '\U{2009}', '\U{200A}',
    '\U{202F}', '\U{205F}', '\U{3000}',
    '\n', '\r', '\U{2028}', '\U{2029}'
  }

  predicate IsJsSpace(c: char) {
    c in JsSpaces
  }

  predicate AllSpace(s: string) {
    forall i :: 0 <= i < |s| ==> IsJsSpace(s[i])
  }

  // ---------------------------------------------------------------------
  // includes

  /** `sub` occurs in `s` at position `i`. */
  predicate OccursAt(s: string, sub: string, i: nat) {
    i <= |s| && sub <= s[i..]
  }

  /** The meaning of `s.includes(sub)`: `sub` occurs somewhere in `s`. */
  ghost predicate Occurs(s: string, sub: string) {
    exists i :: OccursAt(s, sub, i)
  }

  /** `s.includes(sub)`, computed by trying each start position in turn. */
  function Includes(s: string, sub: string): (b: bool)
    ensures b <==> Occurs(s, sub)
    decreases |s|
  {
    if sub <= s then
      assert OccursAt(s, sub, 0);
      true
    else if s == [] then
      false
    else
      var b := Includes(s[1..], sub);
      assert b ==> Occurs(s, sub) by {
        if b {
          var i: nat :| OccursAt(s[1..], sub, i);
          assert s[1..][i..] == s[i + 1..];
          assert OccursAt(s, sub, i + 1);
        }
      }
      assert Occurs(s, sub) ==> b by {
        if Occurs(s, sub) {
          var i: nat :| OccursAt(s, sub, i);
          assert i != 0;
          assert s[1..][i - 1..] == s[i..];
          assert OccursAt(s[1..], sub, i - 1);
        }
      }
      b
  }

  // ---------------------------------------------------------------------
  // trim

  /** `s.trimStart()`. */
  function TrimStart(s: string): (r: string)
    ensures |r| <= |s| && r == s[|s| - |r|..]
    ensures AllSpace(s[..|s| - |r|])
    ensures r == [] || !IsJsSpace(r[0])
    decreases |s|
  {
    if s != [] && IsJsSpace(s[0]) then
      var r := TrimStart(s[1..]);
      assert s[..|s| - |r|] == [s[0]] + s[1..][..|s| - 1 - |r|];
      r
    else
      s
  }

  /** `s.trimEnd()`. */
  function TrimEnd(s: string): (r: string)
    ensures |r| <= |s| && r == s[..|r|]
    ensures AllSpace(s[|r|..])
    ensures r == [] || !IsJsSpace(r[|r| - 1])
    decreases |s|
  {
    if s != [] && IsJsSpace(s[|s| - 1]) then
      var r := TrimEnd(s[..|s| - 1]);
      assert s[|r|..] == s[..|s| - 1][|r|..] + [s[|s| - 1]];
      r
    else
      s
  }

  /** `s.trim()`: leading white space is dropped as by `trimStart`, then
      trailing white space as by `trimEnd`; what is left neither begins
      nor ends with white space. */
  function Trim(s: string): (r: string)
    ensures |r| <= |s|
    ensures r == [] || (!IsJsSpace(r[0]) && !IsJsSpace(r[|r| - 1]))
  {
    TrimEndKeepsStart(TrimStart(s));
    TrimEnd(TrimStart(s))
  }

  lemma TrimEndKeepsStart(t: string)
    requires t == [] || !IsJsSpace(t[0])
    ensures TrimEnd(t) == [] || !IsJsSpace(TrimEnd(t)[0])
  {
    var r := TrimEnd(t);
    if r != [] {
      assert r[0] == t[0];
    }
  }

  /** Trimming recovers any text that neither begins nor ends with white
      space from between two runs of white space. */
  lemma {:induction false} TrimPadded(p: string, x: string, q: string)
    requires AllSpace(p) && AllSpace(q)
    requires x == [] || (!IsJsSpace(x[0]) && !IsJsSpace(x[|x| - 1]))
    ensures Trim(p + x + q) == x
  {
    if x == [] {
      assert p + x + q == (p + q) + [];
      TrimStartPadded(p + q, []);
    } else {
      assert p + x + q == p + (x + q);
      TrimStartPadded(p, x + q);
      TrimEndPadded(x, q);
    }
  }

  lemma {:induction false} TrimStartPadded(p: string, y: string)
    requires AllSpace(p)
    requires y == [] || !IsJsSpace(y[0])
    ensures TrimStart(p + y) == y
    decreases |p|
  {
    if p == [] {
      assert p + y == y;
    } else {
      assert IsJsSpace((p + y)[0]) by {
        assert (p + y)[0] == p[0];
      }
      assert (p + y)[1..] == p[1..] + y;
      TrimStartPadded(p[1..], y);
    }
  }

  lemma {:induction false} TrimEndPadded(x: string, q: string)
    requires AllSpace(q)
    requires x == [] || !IsJsSpace(x[|x| - 1])
    ensures TrimEnd(x + q) == x
    decreases |q|
  {
    if q == [] {
      assert x + q == x;
    } else {
      assert (x + q)[..|x + q| - 1] == x + q[..|q| - 1];
      TrimEndPadded(x, q[..|q| - 1]);
    }
  }

  // ---------------------------------------------------------------------
  // split on the escaped blank line

  /** The separator index.js splits on: the four characters backslash, n,
      backslash, n -- an escaped blank line, as the issue body is passed in
      with its newlines escaped. */
  const EscapedBlankLine: string := "\\n\\n"

  predicate SepAt(s: string, t: nat) {
    OccursAt(s, EscapedBlankLine, t)
  }

  ghost predicate HasSep(s: string) {
    exists t :: SepAt(s, t)
  }

  /** The first occurrence of the separator at or after `from`. */
  function FindSep(s: string, from: nat): (r: Option<nat>)
    ensures r.Some? ==> from <= r.value && SepAt(s, r.value)
    ensures r.Some? ==> forall t :: from <= t < r.value ==> !SepAt(s, t)
    ensures r.None? ==> forall t :: from <= t ==> !SepAt(s, t)
    decreases |s| - from
  {
    if |s| < from + |EscapedBlankLine| then
      None
    else if SepAt(s, from) then
      Some(from)
    else
      FindSep(s, from + 1)
  }

  /** The pieces joined back together with the separator between them. */
  function Join(pieces: seq<string>): string
    requires |pieces| >= 1
  {
    if |pieces| == 1 then pieces[0] else pieces[0] + EscapedBlankLine + Join(pieces[1..])
  }

  /** `s.split('\\n\\n')`: the separator is searched for from left to right
      and occurrences do not overlap.  Joining the pieces gives back `s`,
      no piece contains the separator, and there is more than one piece
      exactly when `s` contains the separator.  Every cut is at the leftmost
      occurrence: no occurrence starts inside a piece and runs on into the
      separator after it.  Together these fix the pieces. */
  function Split(s: string): (pieces: seq<string>)
    ensures |pieces| >= 1
    ensures Join(pieces) == s
    ensures forall i :: 0 <= i < |pieces| ==> !HasSep(pieces[i])
    ensures forall i :: 0 <= i < |pieces| - 1 ==> !HasSep(pieces[i] + EscapedBlankLine[..3])
    ensures |pieces| > 1 <==> HasSep(s)
    decreases |s|
  {
    match FindSep(s, 0)
    case None => [s]
    case Some(p) =>
      var head := s[..p];
      assert !HasSep(head) by {
        forall t: nat | SepAt(head, t) ensures false {
          assert |EscapedBlankLine| == 4;
          assert t + 4 <= p;
          assert head[t..t + 4] == s[t..t + 4];
          assert SepAt(s, t);
        }
      }
      assert !HasSep(head + EscapedBlankLine[..3]) by {
        var cut := head + EscapedBlankLine[..3];
        assert cut == s[..p + 3];
        forall t: nat | SepAt(cut, t) ensures false {
          assert t + 4 <= p + 3;
          assert cut[t..t + 4] == s[t..t + 4];
          assert SepAt(s, t);
        }
      }
      var rest := Split(s[p + |EscapedBlankLine|..]);
      assert s == head + EscapedBlankLine + s[p + |EscapedBlankLine|..] by {
        assert EscapedBlankLine <= s[p..];
      }
      assert ([head] + rest)[1..] == rest;
      [head] + rest
  }

  // Small steps through `FindSep` and `Split`, kept apart so that each
  // proof sees only the facts it needs.

  lemma FirstSepFound(s: string, q: nat)
    requires SepAt(s, q) && (forall t: nat :: t < q ==> !SepAt(s, t))
    ensures FindSep(s, 0) == Some(q)
  {
  }

  lemma NoSepFound(s: string)
    requires forall t: nat :: t < |s| ==> !SepAt(s, t)
    ensures FindSep(s, 0).None?
  {
  }

  lemma SplitAtFirst(s: string, q: nat)
    requires FindSep(s, 0) == Some(q)
    ensures |Split(s)| >= 2 && Split(s)[0] == s[..q]
    ensures Split(s)[1] == Split(s[q + |EscapedBlankLine|..])[0]
  {
  }

  lemma SplitWithoutSep(s: string)
    requires FindSep(s, 0).None?
    ensures Split(s) == [s]
  {
  }

  /** A piece without a backslash runs up to the first separator after it. */
  lemma SplitAfter(a: string, rest: string)
    requires '\\' !in a
    ensures Split(a + EscapedBlankLine + rest) == [a] + Split(rest)
  {
    var s := a + EscapedBlankLine + rest;
    assert s[|a|..] == EscapedBlankLine + rest;
    assert SepAt(s, |a|);
    forall t: nat | t < |a| ensures !SepAt(s, t) {
      assert s[t] == a[t];
    }
    assert s[..|a|] == a;
    assert s[|a| + |EscapedBlankLine|..] == rest;
  }

  /** A text without a backslash is a single piece. */
  lemma SplitWhole(s: string)
    requires '\\' !in s
    ensures Split(s) == [s]
  {
    forall t: nat | t < |s| ensures !SepAt(s, t) {
      assert s[t] in s;
    }
  }

  /** Splitting undoes joining when no piece holds a backslash. */
  lemma {:induction false} SplitJoin(pieces: seq<string>)
    requires |pieces| >= 1
    requires forall i :: 0 <= i < |pieces| ==> '\\' !in pieces[i]
    ensures Split(Join(pieces)) == pieces
    decreases |pieces|
  {
    if |pieces| == 1 {
      SplitWhole(pieces[0]);
    } else {
      SplitJoin(pieces[1..]);
      SplitAfter(pieces[0], Join(pieces[1..]));
      assert pieces == [pieces[0]] + pieces[1..];
    }
  }

  /** The contract of `Split` fixes its result: any pieces that join back to
      `s`, hold no separator, and are cut at the leftmost occurrence are the
      pieces `Split` returns. */
  lemma {:induction false} SplitUnique(s: string, pieces: seq<string>)
    requires |pieces| >= 1 && Join(pieces) == s
    requires forall i :: 0 <= i < |pieces| ==> !HasSep(pieces[i])
    requires forall i :: 0 <= i < |pieces| - 1 ==> !HasSep(pieces[i] + EscapedBlankLine[..3])
    ensures Split(s) == pieces
    decreases |pieces|
  {
    if |pieces| == 1 {
      assert !HasSep(s);
    } else {
      var head, tail := pieces[0], pieces[1..];
      var rest := Join(tail);
      assert s == head + EscapedBlankLine + rest;
      assert !HasSep(head + EscapedBlankLine[..3]);
      var cut := head + EscapedBlankLine[..3];
      assert s[..|head| + 3] == cut;
      forall t: nat | t < |head| && SepAt(s, t) ensures SepAt(cut, t) {
        SepInPrefix(s, |head| + 3, t);
      }
      assert s[|head|..] == EscapedBlankLine + rest;
      assert SepAt(s, |head|);
      assert s[..|head|] == head;
      assert s[|head| + |EscapedBlankLine|..] == rest;
      forall i | 0 <= i < |tail| ensures !HasSep(tail[i]) {
        assert tail[i] == pieces[i + 1];
      }
      forall i | 0 <= i < |tail| - 1 ensures !HasSep(tail[i] + EscapedBlankLine[..3]) {
        assert tail[i] == pieces[i + 1];
      }
      SplitUnique(rest, tail);
      assert pieces == [head] + tail;
    }
  }

  lemma SepInPrefix(s: string, k: nat, t: nat)
    requires SepAt(s, t) && t + |EscapedBlankLine| <= k <= |s|
    ensures SepAt(s[..k], t)
  {
    assert s[..k][t..][..4] == s[t..][..4];
  }

  /** Occurrences are taken from the left: backslash-n three times splits
      after the first escaped blank line, leaving `\n` as piece [1]. */
  lemma SplitOverlapping()
    ensures Split("\\n\\n\\n") == ["", "\\n"]
  {
    var s := "\\n\\n\\n";
    assert SepAt(s, 0);
    assert !SepAt(s[4..], 0);
    assert s[4..] == "\\n";
  }

  /** A text that neither starts with `n` nor holds a backslash cannot
      overlap a separator: where it occurs around one, it lies wholly on
      one side. */
  lemma OccursBesideSep(a: string, b: string, h: string, i: nat)
    requires h != [] && '\\' !in h && h[0] != 'n'
    requires OccursAt(a + EscapedBlankLine + b, h, i)
    ensures OccursAt(a, h, i) || (|a| + 4 <= i && OccursAt(b, h, i - |a| - 4))
  {
    var s := a + EscapedBlankLine + b;
    assert h == s[i..i + |h|];
    if i + |h| <= |a| {
      assert s[i..i + |h|] == a[i..i + |h|];
    } else if |a| + 4 <= i {
      var j := i - |a| - 4;
      assert s[i..i + |h|] == b[j..j + |h|] == b[j..][..|h|];
    } else if i < |a| {
      OverlapHasBackslash(a, b, h, i);
    } else {
      InsideSepStartsSep(a, b, h, i);
    }
  }

  lemma OverlapHasBackslash(a: string, b: string, h: string, i: nat)
    requires OccursAt(a + EscapedBlankLine + b, h, i)
    requires i < |a| < i + |h|
    ensures '\\' in h
  {
    var s := a + EscapedBlankLine + b;
    assert h[|a| - i] == s[|a|];
  }

  lemma InsideSepStartsSep(a: string, b: string, h: string, i: nat)
    requires OccursAt(a + EscapedBlankLine + b, h, i)
    requires |a| <= i < |a| + 4 && h != []
    ensures h[0] == '\\' || h[0] == 'n'
  {
    var s := a + EscapedBlankLine + b;
    assert h[0] == s[i] == EscapedBlankLine[i - |a|];
  }
}
