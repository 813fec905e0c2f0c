/** Redaction of secrets in audit strings: the pattern `_SECRET_VALUE` and its substitution
    (backend/audit/service.py). */
module Redaction {
  import opened Basics

  const REDACTED := "[REDACTED]"
  const MASK := "=[REDACTED]"

  /** `api[_-]?key` stands for three words. */
  const WORDS := [
    "password", "passwd", "secret", "token", "apikey", "api_key", "api-key", "authorization", "cookie", "csrf"]

  /** `(?i)` over text: four letters outside ASCII fold to letters of the words. */
  function Fold(c: char): char {
    if 'A' <= c <= 'Z' then c + ('a' - 'A')
    else if c == '\U{130}' || c == '\U{131}' then 'i'
    else if c == '\U{17F}' then 's'
    else if c == '\U{212A}' then 'k'
    else c
  }

  /** `\s` over text. */
  predicate IsSpace(c: char) {
    || '\t' <= c <= '\r' || '\U{1C}' <= c <= ' ' || c == '\U{85}' || c == '\U{A0}' || c == '\U{1680}'
    || '\U{2000}' <= c <= '\U{200A}' || c == '\U{2028}' || c == '\U{2029}' || c == '\U{202F}' || c == '\U{205F}'
    || c == '\U{3000}'
  }

  /** `[:=]`. */
  predicate IsSep(c: char) { c == ':' || c == '=' }

  /** `[^\s,;]`. */
  predicate IsValue(c: char) { !IsSpace(c) && c != ',' && c != ';' }

  predicate StartsWith(s: string, w: string) {
    |w| <= |s| && forall j | 0 <= j < |w| :: Fold(s[j]) == w[j]
  }

  /** Length of the key word that `s` starts with, or zero. */
  function KeyLength(s: string, n: nat := 0): nat
    requires n <= |WORDS|
    decreases |WORDS| - n
  {
    if n == |WORDS| then 0 else if StartsWith(s, WORDS[n]) then |WORDS[n]| else KeyLength(s, n + 1)
  }

  function SkipSpaces(s: string, i: nat): (j: nat)
    requires i <= |s|
    ensures i <= j <= |s|
    decreases |s| - i
  {
    if i < |s| && IsSpace(s[i]) then SkipSpaces(s, i + 1) else i
  }

  function ValueEnd(s: string, i: nat): (j: nat)
    requires i <= |s|
    ensures i <= j <= |s|
    decreases |s| - i
  {
    if i < |s| && IsValue(s[i]) then ValueEnd(s, i + 1) else i
  }

  /** A match at the start of the text: where its key word and the match itself end. */
  datatype Match = Match(key: nat, end: nat)

  function MatchHere(s: string): (m: Option<Match>)
    ensures m.Some? ==> 0 < m.value.key < m.value.end <= |s|
  {
    var k := KeyLength(s);
    KeyWithin(s, 0);
    var i := SkipSpaces(s, k);
    if k == 0 || i == |s| || !IsSep(s[i]) then None
    else
      var j := SkipSpaces(s, i + 1);
      var e := ValueEnd(s, j);
      if e == j then None else Some(Match(k, e))
  }

  lemma {:induction false} KeyWithin(s: string, n: nat)
    requires n <= |WORDS|
    ensures KeyLength(s, n) <= |s|
    decreases |WORDS| - n
  {
    if n < |WORDS| { KeyWithin(s, n + 1); }
  }

  /** `re.sub`, from left to right over non-overlapping matches. */
  function Redact(s: string): string {
    if s == "" then ""
    else
      match MatchHere(s)
      case Some(m) => s[..m.key] + MASK + Redact(s[m.end..])
      case None => [s[0]] + Redact(s[1..])
  }

  // ---- Key words -----------------------------------------------------------

  /** What the words are made of: no separators, spaces or brackets. */
  predicate IsKeyChar(c: char) { 'a' <= Fold(c) <= 'z' || c == '_' || c == '-' }

  lemma WordsArePlain(n: nat)
    requires n < |WORDS|
    ensures |WORDS[n]| >= 4 && forall j :: 0 <= j < |WORDS[n]| ==> 'a' <= WORDS[n][j] <= 'z' || WORDS[n][j] in "_-"
  { }

  /** No word starts with another. */
  lemma OneWord(s: string, m: nat, n: nat)
    requires m < |WORDS| && n < |WORDS| && StartsWith(s, WORDS[m]) && StartsWith(s, WORDS[n])
    ensures m == n
  {
    var v, w := WORDS[m], WORDS[n];
    assert v[0] == w[0] && v[1] == w[1] && v[3] == w[3];
    if |v| > 5 && |w| > 5 { assert v[5] == w[5]; }
  }

  lemma {:induction false} KeyIsWord(s: string, n: nat) returns (m: nat)
    requires n <= |WORDS| && KeyLength(s, n) > 0
    ensures n <= m < |WORDS| && StartsWith(s, WORDS[m]) && KeyLength(s, n) == |WORDS[m]|
    decreases |WORDS| - n
  {
    hide StartsWith;
    if StartsWith(s, WORDS[n]) { m := n; } else { m := KeyIsWord(s, n + 1); }
  }

  lemma {:induction false} WordIsKey(s: string, n: nat, m: nat)
    requires n <= m < |WORDS| && StartsWith(s, WORDS[m])
    ensures KeyLength(s, n) == |WORDS[m]|
    decreases m - n
  {
    hide StartsWith;
    if n < m {
      if StartsWith(s, WORDS[n]) { OneWord(s, n, m); }
      WordIsKey(s, n + 1, m);
    }
  }

  lemma KeyChars(s: string)
    ensures KeyLength(s) <= |s| && forall j :: 0 <= j < KeyLength(s) ==> IsKeyChar(s[j])
  {
    KeyWithin(s, 0);
    if KeyLength(s) > 0 {
      var m := KeyIsWord(s, 0);
      WordsArePlain(m);
      hide KeyLength;
      forall j | 0 <= j < KeyLength(s) ensures IsKeyChar(s[j]) { assert Fold(s[j]) == WORDS[m][j]; }
    }
  }

  /** The key depends on its own characters only. */
  lemma SameKey(s: string, t: string)
    requires KeyLength(s) <= |s| && KeyLength(s) <= |t| && s[..KeyLength(s)] == t[..KeyLength(s)]
    ensures KeyLength(s) > 0 ==> KeyLength(t) == KeyLength(s)
  {
    if KeyLength(s) > 0 {
      var k := KeyLength(s);
      var m := KeyIsWord(s, 0);
      assert StartsWith(t, WORDS[m]) by {
        forall j | 0 <= j < k ensures Fold(t[j]) == WORDS[m][j] { assert s[..k][j] == t[..k][j]; }
      }
      WordIsKey(t, 0, m);
    }
  }

  // ---- Shape of a match ----------------------------------------------------

  ghost predicate Spaces(s: string, i: nat, j: nat) { i <= j <= |s| && forall x :: i <= x < j ==> IsSpace(s[x]) }

  ghost predicate Values(s: string, i: nat, j: nat) { i <= j <= |s| && forall x :: i <= x < j ==> IsValue(s[x]) }

  /** Key, spaces, a separator at `i`, spaces up to `j`, and the longest value up to `e`. */
  ghost predicate Shape(s: string, k: nat, i: nat, j: nat, e: nat) {
    && k == KeyLength(s) > 0 && Spaces(s, k, i) && i < |s| && IsSep(s[i])
    && Spaces(s, i + 1, j) && j < e && Values(s, j, e) && (e < |s| ==> !IsValue(s[e]))
  }

  lemma {:induction false} SkipsTo(s: string, i: nat, j: nat)
    requires Spaces(s, i, j) && (j < |s| ==> !IsSpace(s[j]))
    ensures SkipSpaces(s, i) == j
    decreases j - i
  {
    if i < j { SkipsTo(s, i + 1, j); }
  }

  lemma {:induction false} Skipped(s: string, i: nat)
    requires i <= |s|
    ensures var j := SkipSpaces(s, i); Spaces(s, i, j) && (j < |s| ==> !IsSpace(s[j]))
    decreases |s| - i
  {
    if i < |s| && IsSpace(s[i]) { Skipped(s, i + 1); }
  }

  lemma {:induction false} EndsAt(s: string, i: nat, j: nat)
    requires Values(s, i, j) && (j < |s| ==> !IsValue(s[j]))
    ensures ValueEnd(s, i) == j
    decreases j - i
  {
    if i < j { EndsAt(s, i + 1, j); }
  }

  lemma {:induction false} Ended(s: string, i: nat)
    requires i <= |s|
    ensures var j := ValueEnd(s, i); Values(s, i, j) && (j < |s| ==> !IsValue(s[j]))
    decreases |s| - i
  {
    if i < |s| && IsValue(s[i]) { Ended(s, i + 1); }
  }

  /** A text of this shape matches, and nothing else does. */
  lemma ShapeMatches(s: string, k: nat, i: nat, j: nat, e: nat)
    requires Shape(s, k, i, j, e)
    ensures MatchHere(s) == Some(Match(k, e))
  {
    hide KeyLength, Fold;
    SkipsTo(s, k, i);
    SkipsTo(s, i + 1, j);
    EndsAt(s, j, e);
  }

  lemma MatchShapes(s: string) returns (i: nat, j: nat)
    requires MatchHere(s).Some?
    ensures Shape(s, MatchHere(s).value.key, i, j, MatchHere(s).value.end)
  {
    hide KeyLength, Fold;
    KeyChars(s);
    var k := KeyLength(s);
    Skipped(s, k);
    i := SkipSpaces(s, k);
    Skipped(s, i + 1);
    j := SkipSpaces(s, i + 1);
    Ended(s, j);
  }

  /** Text that starts with a value character after the key has no match. */
  lemma {:induction false} NoKeyNoMatch(s: string)
    requires s == "" || !IsKeyChar(s[0])
    ensures MatchHere(s).None?
  {
    hide KeyLength, Fold, IsKeyChar;
    KeyChars(s);
  }

  // ---- What is taken for a secret ------------------------------------------

  const SECRET_WORDS := {
    "password", "passwd", "secret", "token", "apikey", "api_key", "api-key", "authorization", "cookie", "csrf"}

  /** Letters are compared without case, and four letters outside ASCII with the ones they
      fold to. */
  lemma FoldExactly(c: char, d: char)
    requires 'a' <= d <= 'z' || d == '_' || d == '-'
    ensures Fold(c) == d <==>
      || c == d
      || ('A' <= c <= 'Z' && c as int + 32 == d as int)
      || (d == 'i' && (c == '\U{130}' || c == '\U{131}'))
      || (d == 's' && c == '\U{17F}') || (d == 'k' && c == '\U{212A}')
  { }

  /** The 29 characters of Unicode white space. */
  const SPACES :=
    "\t\n\U{B}\U{C}\r\U{1C}\U{1D}\U{1E}\U{1F} \U{85}\U{A0}\U{1680}\U{2000}\U{2001}\U{2002}\U{2003}\U{2004}" +
    "\U{2005}\U{2006}\U{2007}\U{2008}\U{2009}\U{200A}\U{2028}\U{2029}\U{202F}\U{205F}\U{3000}"

  /** What separates a key from its value, and what ends the value. */
  lemma ClassesSay(c: char)
    ensures IsSep(c) <==> c in ":="
    ensures IsSpace(c) <==> c in SPACES
    ensures IsValue(c) <==> c !in SPACES && c != ',' && c != ';'
  { }

  lemma KeyIsExactly(s: string, n: nat)
    requires n > 0
    ensures KeyLength(s) == n <==> exists w :: w in SECRET_WORDS && |w| == n && StartsWith(s, w)
  {
    hide StartsWith;
    if KeyLength(s) == n {
      var m := KeyIsWord(s, 0);
      assert WORDS[m] in SECRET_WORDS;
    }
    if w :| w in SECRET_WORDS && |w| == n && StartsWith(s, w) {
      WordIsListed(w);
      var m :| 0 <= m < |WORDS| && WORDS[m] == w;
      WordIsKey(s, 0, m);
    }
  }

  lemma WordIsListed(w: string)
    requires w in SECRET_WORDS
    ensures exists m :: 0 <= m < |WORDS| && WORDS[m] == w
  {
    assert WORDS[0] == "password" && WORDS[1] == "passwd" && WORDS[2] == "secret" && WORDS[3] == "token";
    assert WORDS[4] == "apikey" && WORDS[5] == "api_key" && WORDS[6] == "api-key" && WORDS[7] == "authorization";
    assert WORDS[8] == "cookie" && WORDS[9] == "csrf";
  }

  /** A secret is a word, a separator and a value, with any spaces around the separator. */
  lemma MatchExactly(s: string, k: nat, e: nat)
    ensures MatchHere(s) == Some(Match(k, e)) <==> exists i: nat, j: nat :: Shape(s, k, i, j, e)
  {
    hide MatchHere, Shape;
    if MatchHere(s) == Some(Match(k, e)) { var i, j := MatchShapes(s); }
    if i: nat, j: nat :| Shape(s, k, i, j, e) { ShapeMatches(s, k, i, j, e); }
  }

  /** The text through a key that matches at `p`, the mask, and the redacted rest. */
  function MaskedAt(s: string, p: nat): string
    requires p <= |s| && MatchHere(s[p..]).Some?
  {
    s[..p + MatchHere(s[p..]).value.key] + MASK + Redact(s[p + MatchHere(s[p..]).value.end..])
  }

  lemma MaskedLater(s: string, p: nat)
    requires 0 < p <= |s| && MatchHere(s[p..]).Some?
    ensures s[1..][p - 1..] == s[p..] && [s[0]] + MaskedAt(s[1..], p - 1) == MaskedAt(s, p)
  {
    hide MatchHere, Redact;
    assert s[1..][p - 1..] == s[p..];
    var m := MatchHere(s[p..]).value;
    OneFurther(s, p, m.key, m.end);
    Glue([s[0]], s[1..][..p - 1 + m.key], MASK, Redact(s[p + m.end..]));
  }

  lemma Glue(a: string, b: string, c: string, d: string)
    ensures a + (b + c + d) == (a + b) + c + d
  { }

  lemma {:induction false} RedactsAt(s: string, p: nat)
    requires p <= |s| && forall x :: 0 <= x < p ==> MatchHere(s[x..]).None?
    ensures p == |s| ==> Redact(s) == s
    ensures MatchHere(s[p..]).Some? ==> Redact(s) == MaskedAt(s, p)
  {
    hide MatchHere, Redact, MaskedAt;
    assert s[0..] == s;
    if p == 0 {
      if s == "" { RedactNothing(); } else if MatchHere(s).Some? { MaskedHere(s); }
    } else {
      RedactNext(s);
      forall x | 0 <= x < p - 1 ensures MatchHere(s[1..][x..]).None? { assert s[1..][x..] == s[x + 1..]; }
      RedactsAt(s[1..], p - 1);
      if MatchHere(s[p..]).Some? { MaskedLater(s, p); }
    }
  }

  lemma MaskedHere(s: string)
    requires s != "" && MatchHere(s).Some?
    ensures s[0..] == s && Redact(s) == MaskedAt(s, 0)
  {
    RedactMatch(s);
    hide Redact, MatchHere;
    assert s[0..] == s;
  }

  /** Redaction keeps the text up to and including the first key, puts the mask for what
      follows it, and goes on behind the value; without a secret it keeps everything. */
  lemma RedactsFromFirst(s: string, p: nat)
    requires p <= |s| && forall x :: 0 <= x < p ==> MatchHere(s[x..]).None?
    ensures p == |s| ==> Redact(s) == s
    ensures MatchHere(s[p..]).Some? ==>
      var m := MatchHere(s[p..]).value; Redact(s) == s[..p + m.key] + "=[REDACTED]" + Redact(s[p + m.end..])
  {
    hide MatchHere, Redact;
    RedactsAt(s, p);
    assert MASK == "=[REDACTED]";
  }

  lemma RedactNothing()
    ensures Redact("") == "" && MatchHere("").None?
  { }

  lemma OneFurther(s: string, p: nat, key: nat, end: nat)
    requires 0 < p && key <= |s| - p && end <= |s| - p
    ensures s[1..][p - 1 + end..] == s[p + end..] && s[..p + key] == [s[0]] + s[1..][..p - 1 + key]
  { }

  // ---- What redaction leaves -----------------------------------------------

  /** Every match, from left to right, is followed by the mask and nothing else. */
  predicate Clean(s: string) {
    if s == "" then true
    else
      match MatchHere(s)
      case Some(m) => s[m.key..m.end] == MASK && Clean(s[m.end..])
      case None => Clean(s[1..])
  }

  lemma RedactMatch(s: string)
    requires s != "" && MatchHere(s).Some?
    ensures var m := MatchHere(s).value; Redact(s) == s[..m.key] + MASK + Redact(s[m.end..])
  { }

  lemma RedactNext(s: string)
    requires s != "" && MatchHere(s).None?
    ensures Redact(s) == [s[0]] + Redact(s[1..])
  { }

  /** Redaction keeps everything up to the end `n` of the key that matches at `p`, and the
      mask comes next. */
  ghost predicate KeepsKey(s: string, p: nat, n: nat) {
    && p < n < |s| && MatchHere(s[p..]).Some? && n == p + MatchHere(s[p..]).value.key
    && n < |Redact(s)| && Redact(s)[n] == '=' && forall x :: 0 <= x < n ==> Redact(s)[x] == s[x]
  }

  lemma KeepsKeyHere(s: string)
    requires s != "" && MatchHere(s).Some?
    ensures KeepsKey(s, 0, MatchHere(s).value.key)
  {
    RedactMatch(s);
    hide Redact, MatchHere;
    assert s[0..] == s;
  }

  lemma KeepsKeyLater(s: string, p: nat, n: nat)
    requires s != "" && MatchHere(s).None? && KeepsKey(s[1..], p, n)
    ensures KeepsKey(s, p + 1, n + 1)
  {
    hide Redact, MatchHere;
    RedactNext(s);
    assert s[1..][p..] == s[p + 1..];
    forall x | 0 <= x < n + 1 ensures Redact(s)[x] == s[x] {
      if x > 0 { assert Redact(s)[x] == Redact(s[1..])[x - 1]; }
    }
  }

  /** Redaction changes nothing before the first match. */
  lemma {:induction false} FirstKey(s: string) returns (p: nat, n: nat)
    ensures Redact(s) == s || KeepsKey(s, p, n)
  {
    hide MatchHere, KeepsKey;
    p, n := 0, 0;
    if s != "" {
      if MatchHere(s).Some? {
        KeepsKeyHere(s);
        n := MatchHere(s).value.key;
      } else {
        p, n := FirstKey(s[1..]);
        RedactNext(s);
        hide Redact;
        if Redact(s[1..]) != s[1..] {
          KeepsKeyLater(s, p, n);
          p, n := p + 1, n + 1;
        }
      }
    }
  }

  /** What follows the key is the same in both, so both match or neither does. */
  lemma SameAfterKey(s: string, p: nat, k: nat)
    requires p < k == KeyLength(s) <= |s| && MatchHere(s[p..]).Some? && p + MatchHere(s[p..]).value.key == k
    ensures MatchHere(s).Some?
  {
    hide KeyLength, Fold, MatchHere, IsSpace, IsSep, IsValue;
    var t := s[p..];
    var m := MatchHere(t).value;
    var i, j := MatchShapes(t);
    forall x | k <= x < p + i ensures IsSpace(s[x]) { assert t[x - p] == s[x]; }
    forall x | p + i + 1 <= x < p + j ensures IsSpace(s[x]) { assert t[x - p] == s[x]; }
    forall x | p + j <= x < p + m.end ensures IsValue(s[x]) { assert t[x - p] == s[x]; }
    if p + m.end < |s| { assert t[m.end] == s[p + m.end]; }
    ShapeMatches(s, k, p + i, p + j, p + m.end);
  }

  /** If the shape up to the value's first character lies in a common prefix, both match. */
  lemma SamePrefix(s: string, t: string, n: nat, k: nat, i: nat, j: nat, e: nat)
    requires Shape(t, k, i, j, e) && j < n <= |s| && n <= |t| && s[..n] == t[..n]
    ensures MatchHere(s).Some?
  {
    hide KeyLength, Fold, MatchHere, IsSpace, IsSep, IsValue;
    forall x | 0 <= x < n ensures s[x] == t[x] { assert s[..n][x] == t[..n][x]; }
    assert t[..k] == s[..k];
    SameKey(t, s);
    Ended(s, j);
    EndsLater(s, j);
    ShapeMatches(s, k, i, j, ValueEnd(s, j));
  }

  lemma EndsLater(s: string, j: nat)
    requires j < |s| && IsValue(s[j])
    ensures j < ValueEnd(s, j)
  { }

  /** Redacting the rest makes no new match at the start. */
  lemma NoNewMatch(s: string)
    requires s != "" && MatchHere(s).None?
    ensures MatchHere([s[0]] + Redact(s[1..])).None?
  {
    hide MatchHere, KeepsKey;
    var out := [s[0]] + Redact(s[1..]);
    RedactNext(s);
    hide Redact;
    var p, n := FirstKey(s[1..]);
    if Redact(s[1..]) == s[1..] {
      assert out == s;
    } else if MatchHere(out).Some? {
      KeepsKeyLater(s, p, n);
      ClashAtStart(s, p + 1, n + 1);
    }
  }

  lemma ClashAtStart(s: string, p: nat, n: nat)
    requires 0 < p && KeepsKey(s, p, n) && MatchHere(Redact(s)).Some?
    ensures MatchHere(s).Some?
  {
    hide KeyLength, Fold, MatchHere, IsSpace, IsSep, IsValue, IsKeyChar, Redact;
    var out := Redact(s);
    var i, j := MatchShapes(out);
    var k, e := MatchHere(out).value.key, MatchHere(out).value.end;
    KeyChars(out);
    KeyChars(s[p..]);
    var i2, j2 := MatchShapes(s[p..]);
    SepIsApart();
    assert k <= n;
    assert out[..n] == s[..n];
    assert out[..k] == out[..n][..k] == s[..n][..k] == s[..k];
    SameKey(out, s);
    forall x | p <= x < n ensures IsKeyChar(out[x]) { assert out[..n][x] == s[..n][x] == s[p..][x - p]; }
    if k == n {
      SameAfterKey(s, p, k);
    } else {
      assert IsKeyChar(out[if k < p then p else k]);
      assert i < p && j <= p;
      SamePrefix(s, out, n, k, i, j, e);
    }
  }

  lemma SepIsApart()
    ensures forall c :: IsKeyChar(c) ==> !IsSep(c) && !IsSpace(c) && IsValue(c) && c != '['
    ensures IsSep('=') && !IsSpace('=')
  { }

  /** The mask after a key is the whole match, unless a value character follows. */
  lemma MaskMatches(s: string, k: nat)
    requires k == KeyLength(s) > 0 && k + |MASK| <= |s| && s[k..k + |MASK|] == MASK
    requires k + |MASK| < |s| ==> !IsValue(s[k + |MASK|])
    ensures MatchHere(s) == Some(Match(k, k + |MASK|))
  {
    hide KeyLength, Fold, MatchHere, IsSep, IsValue, IsSpace;
    MaskChars();
    var n := k + |MASK|;
    forall x | k <= x < n ensures s[x] == MASK[x - k] { assert s[k..n][x - k] == s[x]; }
    ShapeMatches(s, k, k, k + 1, n);
  }

  lemma MaskChars()
    ensures |MASK| == 11 && IsSep(MASK[0])
    ensures forall x :: 1 <= x < |MASK| ==> IsValue(MASK[x])
  { }

  /** After a match comes the end or a delimiter, and redaction keeps it. */
  lemma DelimiterKept(s: string)
    requires s == "" || !IsValue(s[0])
    ensures Redact(s) == "" <==> s == ""
    ensures s != "" ==> Redact(s) != "" && Redact(s)[0] == s[0]
  {
    if s != "" {
      SepIsApart();
      NoKeyNoMatch(s);
      RedactNext(s);
    }
  }

  lemma AfterMatch(s: string)
    requires MatchHere(s).Some?
    ensures var e := MatchHere(s).value.end; s[e..] == "" || !IsValue(s[e..][0])
  {
    var i, j := MatchShapes(s);
  }

  /** Redacted text: key, mask, and the redacted rest. */
  lemma MaskedStart(s: string, k: nat, rest: string)
    requires k == KeyLength(s) > 0 && k <= |s| && (rest == "" || !IsValue(rest[0]))
    ensures var out := s[..k] + MASK + rest;
      MatchHere(out) == Some(Match(k, k + |MASK|)) && out[k..k + |MASK|] == MASK && out[k + |MASK|..] == rest
  {
    var out := s[..k] + MASK + rest;
    assert out[..k] == s[..k] && out[k..k + |MASK|] == MASK;
    SameKey(s, out);
    hide KeyLength, IsValue, MatchHere;
    assert out[k + |MASK|..] == rest;
    MaskMatches(out, k);
  }

  /** After redaction no secret is left: every key is followed by the mask. */
  lemma {:induction false} RedactedIsClean(s: string)
    ensures Clean(Redact(s))
  {
    if s != "" {
      if MatchHere(s).Some? {
        var m := MatchHere(s).value;
        RedactedIsClean(s[m.end..]);
        AfterMatch(s);
        DelimiterKept(s[m.end..]);
        var i, j := MatchShapes(s);
        RedactMatch(s);
        MaskedStart(s, m.key, Redact(s[m.end..]));
        hide MatchHere, Redact, KeyLength, IsValue;
      } else {
        RedactedIsClean(s[1..]);
        NoNewMatch(s);
        RedactNext(s);
        hide MatchHere, Redact;
        assert Redact(s)[1..] == Redact(s[1..]);
      }
    }
  }

  lemma FixedMatch(s: string)
    requires s != "" && MatchHere(s).Some? && Redact(s) == s
    ensures var m := MatchHere(s).value; s[m.key..m.end] == MASK && Redact(s[m.end..]) == s[m.end..]
  {
    var m := MatchHere(s).value;
    var rest := s[m.end..];
    RedactMatch(s);
    AfterMatch(s);
    DelimiterKept(rest);
    var i, j := MatchShapes(s);
    hide MatchHere, Redact, KeyLength, Fold;
    var n := m.key + |MASK|;
    assert s[m.key..n] == MASK && s[n..] == Redact(rest);
    if n < m.end { assert Redact(rest) != "" && s[n] == Redact(rest)[0]; }
    MaskMatches(s, m.key);
  }

  lemma FixedSplits(s: string)
    requires s != "" && MatchHere(s).Some?
    ensures var m := MatchHere(s).value;
      Redact(s) == s <==> s[m.key..m.end] == MASK && Redact(s[m.end..]) == s[m.end..]
  {
    var m := MatchHere(s).value;
    RedactMatch(s);
    if Redact(s) == s { FixedMatch(s); }
    hide Redact, MatchHere;
    ThreeParts(s, m.key, m.end);
  }

  lemma ThreeParts(s: string, i: nat, j: nat)
    requires i <= j <= |s|
    ensures s == s[..i] + s[i..j] + s[j..]
  { }

  /** Redaction changes exactly the text that is not clean. */
  lemma {:induction false} CleanIsFixed(s: string)
    ensures Redact(s) == s <==> Clean(s)
  {
    if s != "" {
      hide MatchHere;
      if MatchHere(s).Some? {
        CleanIsFixed(s[MatchHere(s).value.end..]);
        FixedSplits(s);
        hide Redact;
      } else {
        CleanIsFixed(s[1..]);
        RedactNext(s);
        hide Redact;
        assert s == [s[0]] + s[1..];
      }
    }
  }

  // ---- Redacting and cutting -----------------------------------------------

  const MAX_TEXT := 1024
  const TRUNCATED := "[TRUNCATED]"

  function Cut(t: string): string { if |t| > MAX_TEXT then t[..MAX_TEXT] + TRUNCATED else t }

  /** What becomes of an audit string. */
  function SafeText(s: string): string { Cut(Redact(s)) }

  /** In numbers: at most 1024 characters are shown, and then the mark. */
  lemma SafeTextSays(s: string)
    ensures SafeText(s) == if |Redact(s)| <= 1024 then Redact(s) else Redact(s)[..1024] + "[TRUNCATED]"
  {
    hide Redact;
  }

  function Shift(n: nat, o: Option<nat>): Option<nat> { if o.Some? then Some(n + o.value) else None }

  /** End of the key whose value runs up to the end of the text, if there is one. */
  function OpenKey(s: string): Option<nat> {
    if s == "" then None
    else
      match MatchHere(s)
      case Some(m) => if m.end == |s| then Some(m.key) else Shift(m.end, OpenKey(s[m.end..]))
      case None => Shift(1, OpenKey(s[1..]))
  }

  /** Redaction masks the value of the open key, which ends by `n`, and nothing else. */
  ghost predicate MasksOpenKey(s: string, n: nat) {
    match OpenKey(s)
    case None => Redact(s) == s
    case Some(k) => k <= n && k <= |s| && Redact(s) == s[..k] + MASK
  }

  lemma {:induction false} NoSeparatorNoMatch(s: string)
    requires forall x :: 0 <= x < |s| ==> !IsSep(s[x])
    ensures MatchHere(s).None? && OpenKey(s).None? && Redact(s) == s
  {
    hide KeyLength, Fold, IsSep;
    if s != "" { NoSeparatorNoMatch(s[1..]); }
  }

  lemma MarkChars()
    ensures TRUNCATED[0] == '['
    ensures forall x :: 0 <= x < |TRUNCATED| ==> IsValue(TRUNCATED[x]) && !IsSpace(TRUNCATED[x]) && !IsSep(TRUNCATED[x])
  { }

  lemma OpenNext(s: string, n: nat)
    requires s != "" && MatchHere(s).None? && n >= 1 && MasksOpenKey(s[1..], n - 1)
    ensures MasksOpenKey(s, n)
  {
    hide MatchHere;
    RedactNext(s);
    assert OpenKey(s) == Shift(1, OpenKey(s[1..]));
    hide Redact, OpenKey;
    assert s == [s[0]] + s[1..];
  }

  lemma OpenSkip(s: string, n: nat)
    requires s != "" && MatchHere(s).Some?
    requires var m := MatchHere(s).value;
      m.end < |s| && m.end <= n && s[m.key..m.end] == MASK && MasksOpenKey(s[m.end..], n - m.end)
    ensures MasksOpenKey(s, n)
  {
    hide MatchHere;
    var m := MatchHere(s).value;
    RedactMatch(s);
    assert OpenKey(s) == Shift(m.end, OpenKey(s[m.end..]));
    hide Redact, OpenKey;
    ThreeParts(s, m.key, m.end);
  }

  lemma OpenEnd(s: string, n: nat)
    requires s != "" && MatchHere(s).Some? && MatchHere(s).value.end == |s| && MatchHere(s).value.key <= n
    ensures MasksOpenKey(s, n)
  {
    hide MatchHere;
    RedactMatch(s);
  }

  /** A match that ends before the cut stays the same match. */
  lemma MatchBeforeCut(t: string, n: nat)
    requires n <= |t| && MatchHere(t).Some? && MatchHere(t).value.end < n
    ensures MatchHere(t[..n] + TRUNCATED) == MatchHere(t)
  {
    hide KeyLength, Fold, MatchHere, IsSpace, IsSep, IsValue;
    var m, u := MatchHere(t).value, t[..n] + TRUNCATED;
    var i, j := MatchShapes(t);
    assert t[..m.key] == u[..m.key];
    SameKey(t, u);
    ShapeMatches(u, m.key, i, j, m.end);
  }

  /** A cut inside the mask of a key leaves its value open. */
  lemma MatchAcrossCut(t: string, n: nat)
    requires n <= |t| && MatchHere(t).Some? && MatchHere(t).value.key < n <= MatchHere(t).value.end
    requires t[MatchHere(t).value.key..MatchHere(t).value.end] == MASK
    ensures var u := t[..n] + TRUNCATED; MatchHere(u) == Some(Match(MatchHere(t).value.key, |u|))
  {
    hide KeyLength, Fold, MatchHere, IsSpace, IsSep, IsValue;
    var m, u := MatchHere(t).value, t[..n] + TRUNCATED;
    var i, j := MatchShapes(t);
    assert t[..m.key] == u[..m.key];
    SameKey(t, u);
    MaskChars();
    MarkChars();
    forall x | m.key <= x < n ensures u[x] == MASK[x - m.key] { assert t[m.key..m.end][x - m.key] == t[x]; }
    ShapeMatches(u, m.key, m.key, m.key + 1, |u|);
  }

  /** A match that only the cut text has runs up to its end. */
  lemma NewMatchIsOpen(t: string, n: nat)
    requires n <= |t| && MatchHere(t).None? && MatchHere(t[..n] + TRUNCATED).Some?
    ensures var u := t[..n] + TRUNCATED; MatchHere(u).value.end == |u| && MatchHere(u).value.key <= n
  {
    hide KeyLength, Fold, MatchHere, IsSpace, IsSep, IsValue, IsKeyChar;
    var u := t[..n] + TRUNCATED;
    var m := MatchHere(u).value;
    var i, j := MatchShapes(u);
    KeyChars(u);
    SepIsApart();
    MarkChars();
    assert u[n] == '[';
    assert forall x :: n <= x < |u| ==> u[x] == TRUNCATED[x - n];
    if m.end < |u| {
      assert u[..n] == t[..n];
      SamePrefix(t, u, n, m.key, i, j, m.end);
    }
  }

  lemma CutInsideKey(t: string, n: nat)
    requires n <= |t| && n <= KeyLength(t)
    ensures MasksOpenKey(t[..n] + TRUNCATED, n)
  {
    var u := t[..n] + TRUNCATED;
    KeyChars(t);
    SepIsApart();
    MarkChars();
    hide KeyLength, Fold, IsSep, IsKeyChar;
    forall x | 0 <= x < |u| ensures !IsSep(u[x]) { if x >= n { assert u[x] == TRUNCATED[x - n]; } }
    NoSeparatorNoMatch(u);
  }

  /** Cutting clean text opens at most one key again: the one whose value the cut shortens,
      or joins with the mark. */
  lemma {:induction false} CutRedacts(t: string, n: nat)
    requires Clean(t) && n <= |t|
    ensures MasksOpenKey(t[..n] + TRUNCATED, n)
    decreases |t|
  {
    hide MatchHere, MasksOpenKey, KeyLength;
    var u := t[..n] + TRUNCATED;
    if n == 0 {
      CutInsideKey(t, n);
    } else if MatchHere(t).Some? {
      var m := MatchHere(t).value;
      var i, j := MatchShapes(t);
      if m.end < n {
        CutRedacts(t[m.end..], n - m.end);
        MatchBeforeCut(t, n);
        assert u[m.end..] == t[m.end..][..n - m.end] + TRUNCATED;
        assert u[m.key..m.end] == t[m.key..m.end];
        OpenSkip(u, n);
      } else if n <= m.key {
        CutInsideKey(t, n);
      } else {
        MatchAcrossCut(t, n);
        OpenEnd(u, n);
      }
    } else if MatchHere(u).Some? {
      NewMatchIsOpen(t, n);
      OpenEnd(u, n);
    } else {
      CutRedacts(t[1..], n - 1);
      assert u[1..] == t[1..][..n - 1] + TRUNCATED;
      OpenNext(u, n);
    }
  }

  /** A second pass leaves this much of a redacted text and the mark alone: no key is open,
      or all that is kept after the open key is the beginning of its mask. */
  ghost predicate CutHolds(head: string) {
    match OpenKey(head + TRUNCATED)
    case None => true
    case Some(k) => k <= |head| && head[k..] < MASK
  }

  lemma MaskedCut(head: string, k: nat)
    requires |head| == MAX_TEXT && k <= |head|
    ensures Cut((head + TRUNCATED)[..k] + MASK) == head + TRUNCATED <==> head[k..] < MASK
  {
    var r := (head + TRUNCATED)[..k] + MASK;
    assert r == head[..k] + MASK;
    assert head == head[..k] + head[k..];
    if |r| > MAX_TEXT {
      var n := MAX_TEXT - k;
      assert r[..MAX_TEXT] == head[..k] + MASK[..n];
      if head[k..] < MASK { assert head[k..] == MASK[..n]; }
      if r[..MAX_TEXT] + TRUNCATED == head + TRUNCATED {
        assert r[..MAX_TEXT] == (r[..MAX_TEXT] + TRUNCATED)[..MAX_TEXT] == (head + TRUNCATED)[..MAX_TEXT] == head;
        assert head[k..] == r[..MAX_TEXT][k..] == MASK[..n];
      }
    }
  }

  /** Redacting and cutting twice is doing it once exactly when the redacted text is short
      or its cut holds. */
  lemma SafeTextIdempotent(s: string)
    ensures SafeText(SafeText(s)) == SafeText(s) <==> |Redact(s)| <= MAX_TEXT || CutHolds(Redact(s)[..MAX_TEXT])
  {
    var t := Redact(s);
    RedactedIsClean(s);
    CleanIsFixed(t);
    hide Redact, Clean, OpenKey;
    if |t| > MAX_TEXT {
      var head := t[..MAX_TEXT];
      CutRedacts(t, MAX_TEXT);
      var o := OpenKey(head + TRUNCATED);
      if o.Some? { MaskedCut(head, o.value); }
      assert (head + TRUNCATED)[..MAX_TEXT] == head;
    }
  }

  /** Text that was only cut, never redacted, stays when it is clean. */
  lemma CutTextStays(c: string)
    requires |c| <= MAX_TEXT
    ensures SafeText(c) == c <==> Clean(c)
  {
    hide Redact, Clean;
    CleanIsFixed(c);
  }

  // ---- A mark that redaction swallows --------------------------------------

  function Pad(n: nat): string { seq(n, _ => 'x') }

  lemma OpenKeyNext(s: string)
    requires s != "" && MatchHere(s).None?
    ensures OpenKey(s) == Shift(1, OpenKey(s[1..]))
  { }

  lemma FirstLetters(n: nat)
    requires n < |WORDS|
    ensures WORDS[n] != "" && WORDS[n][0] in "pstac"
  { }

  lemma StartsNoWord(s: string)
    requires s != "" && Fold(s[0]) !in "pstac"
    ensures MatchHere(s).None?
  {
    hide MatchHere;
    if KeyLength(s) > 0 {
      var m := KeyIsWord(s, 0);
      FirstLetters(m);
    } else {
      NoKeyIsNoMatch(s);
    }
  }

  lemma NoKeyIsNoMatch(s: string)
    requires KeyLength(s) == 0
    ensures MatchHere(s).None?
  { }

  lemma {:induction false} PadKeeps(n: nat, rest: string)
    ensures Redact(Pad(n) + rest) == Pad(n) + Redact(rest) && OpenKey(Pad(n) + rest) == Shift(n, OpenKey(rest))
  {
    hide MatchHere, Redact, OpenKey;
    if n == 0 {
      assert Pad(n) + rest == rest;
    } else {
      var s := Pad(n) + rest;
      PadKeeps(n - 1, rest);
      StartsNoWord(s);
      RedactNext(s);
      OpenKeyNext(s);
      assert s[1..] == Pad(n - 1) + rest;
      assert Pad(n) == ['x'] + Pad(n - 1);
    }
  }

  function Login(value: string, tail: string): string { " " + ("password" + ("=" + (value + tail))) }

  const SWALLOWED := Pad(1004) + Login("x", " tail")

  lemma LoginMatches(value: string, tail: string)
    requires value != "" && (forall x :: 0 <= x < |value| ==> IsValue(value[x])) && (tail == "" || tail[0] == ' ')
    ensures MatchHere(Login(value, tail)).None?
    ensures MatchHere(Login(value, tail)[1..]) == Some(Match(8, 9 + |value|))
  {
    hide KeyLength, MatchHere;
    StartsNoWord(Login(value, tail));
    var s, w := Login(value, tail)[1..], WORDS[0];
    assert s == w + ("=" + (value + tail));
    assert StartsWith(s, w) by { assert forall j :: 0 <= j < |w| ==> Fold(w[j]) == w[j]; }
    WordIsKey(s, 0, 0);
    hide Fold, StartsWith;
    ShapeMatches(s, 8, 8, 9, 9 + |value|);
  }

  lemma LoginRedacts(value: string, tail: string)
    requires value != "" && (forall x :: 0 <= x < |value| ==> IsValue(value[x])) && (tail == "" || tail[0] == ' ')
    requires Redact(tail) == tail
    ensures Redact(Login(value, tail)) == Login(REDACTED, tail)
  {
    hide MatchHere, Redact, IsValue, Login;
    LoginMatches(value, tail);
    LoginParts(value, tail);
    LoginParts(REDACTED, tail);
    var s := Login(value, tail);
    RedactNext(s);
    RedactMatch(s[1..]);
    LettersOf(s[0], s[1..][..8], tail);
  }

  lemma LettersOf(c: char, word: string, tail: string)
    requires c == ' ' && word == "password"
    ensures [c] + (word + MASK + tail) == [' '] + ("password" + MASK + tail)
  { }

  lemma LoginParts(value: string, tail: string)
    ensures var s := Login(value, tail);
      && s[0] == ' ' && s[1..][..8] == "password" && |s| == 10 + |value| + |tail| && s[1..][9 + |value|..] == tail
      && (value == REDACTED ==> s == [' '] + ("password" + MASK + tail))
  {
    assert MASK == "=" + REDACTED;
  }

  lemma LoginOpens(value: string)
    requires value != "" && forall x :: 0 <= x < |value| ==> IsValue(value[x])
    ensures OpenKey(Login(value, "")) == Some(9)
  {
    LoginMatches(value, "");
    hide MatchHere, IsValue;
    OpenKeyNext(Login(value, ""));
  }

  /** The first pass over this text ends in a mask and the mark; the second takes both for
      one value, and 1024 characters without a mark are left. */
  lemma MarkIsSwallowed()
    ensures |SafeText(SWALLOWED)| == MAX_TEXT + |TRUNCATED| && SafeText(SafeText(SWALLOWED)) != SafeText(SWALLOWED)
  {
    hide MatchHere, Redact, OpenKey;
    NoSeparatorNoMatch(" tail");
    LoginRedacts("x", " tail");
    LoginOpens(REDACTED + TRUNCATED);
    PadKeeps(1004, Login("x", " tail"));
    PadKeeps(1004, Login(REDACTED + TRUNCATED, ""));
    var t, head := Redact(SWALLOWED), Pad(1004) + Login(REDACTED, "");
    assert t == head + " tail" && |head| == MAX_TEXT && t[..MAX_TEXT] == head;
    assert head + TRUNCATED == Pad(1004) + Login(REDACTED + TRUNCATED, "");
    assert head[1013..] == MASK;
    SafeTextIdempotent(SWALLOWED);
  }
}
