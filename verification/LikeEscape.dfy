/** Literal text search through LIKE: the escaping in api/v1/endpoints/alerts.py, and a
    LIKE matcher with escape character `\` (ISO/IEC 9075-2, section 8.5). */
module LikeEscape {
  import opened Basics

  const ESC: char := '\\'

  /** `text.replace(c, r)` for a one-character `c`. */
  function Replace(text: string, c: char, r: string): string {
    if text == "" then "" else (if text[0] == c then r else [text[0]]) + Replace(text[1..], c, r)
  }

  /** `q.replace("\\", "\\\\").replace("%", "\\%").replace("_", "\\_")`. */
  function Escape(q: string): string {
    Replace(Replace(Replace(q, ESC, [ESC, ESC]), '%', [ESC, '%']), '_', [ESC, '_'])
  }

  function PatternFor(q: string): string { "%" + Escape(q) + "%" }

  /** Case folding of one character, as the case-insensitive comparison applies it. */
  type Fold = char -> char

  /** LIKE with escape `\`. A pattern that ends inside an escape matches nothing. */
  predicate Like(fold: Fold, p: string, s: string)
    decreases |p|, |s|
  {
    if p == "" then s == ""
    else if p[0] == ESC then
      |p| >= 2 && s != "" && fold(s[0]) == fold(p[1]) && Like(fold, p[2..], s[1..])
    else if p[0] == '%' then
      Like(fold, p[1..], s) || (s != "" && Like(fold, p, s[1..]))
    else
      s != "" && (p[0] == '_' || fold(s[0]) == fold(p[0])) && Like(fold, p[1..], s[1..])
  }

  /** The per-character reading of the three passes. */
  function EscapeChar(c: char): string {
    if c == ESC || c == '%' || c == '_' then [ESC, c] else [c]
  }

  function EscapeMap(q: string): string {
    if q == "" then "" else EscapeChar(q[0]) + EscapeMap(q[1..])
  }

  lemma PlusAssociates<X>(a: seq<X>, b: seq<X>, c: seq<X>)
    ensures (a + b) + c == a + (b + c)
  { }

  lemma {:induction false} ReplaceConcat(a: string, b: string, c: char, r: string)
    ensures Replace(a + b, c, r) == Replace(a, c, r) + Replace(b, c, r)
  {
    if a == "" {
      assert a + b == b;
    } else {
      ReplaceConcat(a[1..], b, c, r);
      assert (a + b)[1..] == a[1..] + b;
      PlusAssociates(if a[0] == c then r else [a[0]], Replace(a[1..], c, r), Replace(b, c, r));
    }
  }

  lemma {:induction false} ReplaceOne(x: char, c: char, r: string)
    ensures Replace([x], c, r) == if x == c then r else [x]
  {
    assert [x][1..] == "";
  }

  lemma {:induction false} ReplaceTwo(x: char, y: char, c: char, r: string)
    ensures Replace([x, y], c, r) == (if x == c then r else [x]) + (if y == c then r else [y])
  {
    ReplaceConcat([x], [y], c, r);
    ReplaceOne(x, c, r);
    ReplaceOne(y, c, r);
    assert [x] + [y] == [x, y];
  }

  lemma EscapeOne(x: char)
    ensures Escape([x]) == EscapeChar(x)
  {
    ReplaceOne(x, ESC, [ESC, ESC]);
    ReplaceOne(x, '%', [ESC, '%']);
    ReplaceOne(x, '_', [ESC, '_']);
    ReplaceTwo(ESC, ESC, '%', [ESC, '%']);
    ReplaceTwo(ESC, ESC, '_', [ESC, '_']);
    ReplaceTwo(ESC, '%', '_', [ESC, '_']);
  }

  lemma EscapeConcat(a: string, b: string)
    ensures Escape(a + b) == Escape(a) + Escape(b)
  {
    ReplaceConcat(a, b, ESC, [ESC, ESC]);
    var a1, b1 := Replace(a, ESC, [ESC, ESC]), Replace(b, ESC, [ESC, ESC]);
    ReplaceConcat(a1, b1, '%', [ESC, '%']);
    ReplaceConcat(Replace(a1, '%', [ESC, '%']), Replace(b1, '%', [ESC, '%']), '_', [ESC, '_']);
  }

  /** The three successive replaces never touch each other's output: together they
      escape each character on its own. */
  lemma {:induction false} EscapeIsPerCharacter(q: string)
    ensures Escape(q) == EscapeMap(q)
  {
    if q != "" {
      EscapeConcat([q[0]], q[1..]);
      EscapeOne(q[0]);
      EscapeIsPerCharacter(q[1..]);
      assert q == [q[0]] + q[1..];
    }
  }

  /** `q` stands at position `i` of `s`, character by character up to folding. */
  ghost predicate OccursAt(fold: Fold, q: string, s: string, i: nat) {
    i + |q| <= |s| && forall k :: 0 <= k < |q| ==> fold(s[i + k]) == fold(q[k])
  }

  lemma {:induction false} LikeOne(fold: Fold, x: char, tail: string, s: string)
    ensures Like(fold, EscapeChar(x) + tail, s) <==>
      s != "" && fold(s[0]) == fold(x) && Like(fold, tail, s[1..])
  {
    var p := EscapeChar(x) + tail;
    if |EscapeChar(x)| == 2 { assert p[2..] == tail; } else { assert p[1..] == tail; }
  }

  lemma OccursStep(fold: Fold, q: string, s: string)
    requires q != ""
    ensures OccursAt(fold, q, s, 0) <==> s != "" && fold(s[0]) == fold(q[0]) && OccursAt(fold, q[1..], s[1..], 0)
  {
    if OccursAt(fold, q, s, 0) {
      assert fold(s[0 + 0]) == fold(q[0]);
      forall k | 0 <= k < |q[1..]| ensures fold(s[1..][0 + k]) == fold(q[1..][k]) {
        assert fold(s[0 + (k + 1)]) == fold(q[k + 1]);
      }
    }
    if s != "" && fold(s[0]) == fold(q[0]) && OccursAt(fold, q[1..], s[1..], 0) {
      forall k | 0 <= k < |q| ensures fold(s[0 + k]) == fold(q[k]) {
        if k > 0 { assert fold(s[1..][0 + (k - 1)]) == fold(q[1..][k - 1]); }
      }
    }
  }

  /** After an escaped literal the rest of the pattern sees the rest of the text. */
  lemma {:induction false} LikeLiteral(fold: Fold, q: string, rest: string, s: string)
    ensures Like(fold, EscapeMap(q) + rest, s) <==>
      OccursAt(fold, q, s, 0) && Like(fold, rest, s[|q|..])
  {
    if q == "" {
      assert EscapeMap(q) + rest == rest;
    } else {
      assert EscapeMap(q) + rest == EscapeChar(q[0]) + (EscapeMap(q[1..]) + rest);
      LikeOne(fold, q[0], EscapeMap(q[1..]) + rest, s);
      OccursStep(fold, q, s);
      if s != "" {
        LikeLiteral(fold, q[1..], rest, s[1..]);
        if |q| <= |s| { assert s[1..][|q[1..]|..] == s[|q|..]; }
      }
    }
  }

  lemma {:induction false} PercentMatchesAll(fold: Fold, s: string)
    ensures Like(fold, "%", s)
    decreases |s|
  {
    assert "%"[1..] == "";
    if s != "" { PercentMatchesAll(fold, s[1..]); }
  }

  /** A leading `%` may skip any number of characters. */
  lemma {:induction false} LikeSkips(fold: Fold, p: string, s: string)
    ensures Like(fold, "%" + p, s) <==> exists i :: 0 <= i <= |s| && Like(fold, p, s[i..])
    decreases |s|
  {
    assert ("%" + p)[1..] == p;
    assert s[0..] == s;
    if s != "" {
      LikeSkips(fold, p, s[1..]);
      assert forall i :: 1 <= i <= |s| ==> s[1..][i - 1..] == s[i..];
      if i :| 0 <= i <= |s[1..]| && Like(fold, p, s[1..][i..]) { assert s[1..][i..] == s[i + 1..]; }
      if i :| 1 <= i <= |s| && Like(fold, p, s[i..]) { assert s[1..][i - 1..] == s[i..]; }
    }
  }

  /** The search is literal: the pattern built from `q` matches exactly the texts in which
      `q` itself occurs, whatever wildcards or backslashes `q` contains. */
  lemma {:induction false} SearchIsLiteral(fold: Fold, q: string, s: string)
    ensures Like(fold, PatternFor(q), s) <==> exists i :: OccursAt(fold, q, s, i)
  {
    EscapeIsPerCharacter(q);
    var body := EscapeMap(q) + "%";
    assert PatternFor(q) == "%" + body;
    LikeSkips(fold, body, s);
    forall i: nat | i <= |s| ensures Like(fold, body, s[i..]) <==> OccursAt(fold, q, s, i) {
      LikeLiteral(fold, q, "%", s[i..]);
      if |q| <= |s[i..]| { PercentMatchesAll(fold, s[i..][|q|..]); }
      assert OccursAt(fold, q, s[i..], 0) <==> OccursAt(fold, q, s, i) by {
        if OccursAt(fold, q, s[i..], 0) {
          forall k | 0 <= k < |q| ensures fold(s[i + k]) == fold(q[k]) { assert fold(s[i..][0 + k]) == fold(q[k]); }
        }
      }
    }
    if i: nat :| OccursAt(fold, q, s, i) { assert i <= |s|; }
  }

  /** The pattern never ends inside an escape, which LIKE reports as an error. */
  predicate Complete(p: string) {
    p == "" || (if p[0] == ESC then |p| >= 2 && Complete(p[2..]) else Complete(p[1..]))
  }

  lemma {:induction false} CompleteStep(c: char, tail: string)
    requires Complete(tail)
    ensures Complete(EscapeChar(c) + tail)
  {
    var p := EscapeChar(c) + tail;
    if |EscapeChar(c)| == 2 { assert p[2..] == tail; } else { assert p[1..] == tail; }
  }

  lemma {:induction false} EscapedIsComplete(q: string, rest: string)
    requires Complete(rest)
    ensures Complete(EscapeMap(q) + rest)
  {
    if q == "" {
      assert EscapeMap(q) + rest == rest;
    } else {
      EscapedIsComplete(q[1..], rest);
      var head, tail := EscapeChar(q[0]), EscapeMap(q[1..]);
      assert EscapeMap(q) == head + tail;
      CompleteStep(q[0], tail + rest);
      hide EscapeMap, EscapeChar, Complete;
      assert (head + tail) + rest == head + (tail + rest);
    }
  }

  lemma SearchPatternIsComplete(q: string)
    ensures Complete(PatternFor(q))
  {
    EscapeIsPerCharacter(q);
    assert "%"[1..] == "";
    EscapedIsComplete(q, "%");
    assert PatternFor(q)[1..] == EscapeMap(q) + "%";
  }
}
