/** Bounded text and tree transforms: packing of AI evidence (backend/ai/context.py) and
    sanitizing of audit values (backend/audit/service.py). */
module BoundedTransforms {
  import opened Basics
  import opened Redaction

  // ---- Evidence packing ----------------------------------------------------

  function Total(encoded: seq<string>): nat {
    if encoded == [] then 0 else Total(encoded[..|encoded| - 1]) + |encoded[|encoded| - 1]|
  }

  function JoinLines(lines: seq<string>): string {
    if lines == [] then ""
    else if |lines| == 1 then lines[0]
    else JoinLines(lines[..|lines| - 1]) + "\n" + lines[|lines| - 1]
  }

  /** The first `k` items respect both limits. */
  ghost predicate Within(encoded: seq<string>, k: nat, maxItems: int, maxChars: int)
    requires k <= |encoded|
  {
    k <= maxItems && Total(encoded[..k]) <= maxChars
  }

  datatype Packed = Packed(selected: nat, text: string, truncated: bool)

  lemma {:induction false} TotalGrows(encoded: seq<string>, i: nat, j: nat)
    requires i <= j <= |encoded|
    ensures Total(encoded[..i]) <= Total(encoded[..j])
    decreases j
  {
    if i < j {
      TotalGrows(encoded, i, j - 1);
      assert encoded[..j][..j - 1] == encoded[..j - 1];
    }
  }

  lemma {:induction false} JoinLength(lines: seq<string>)
    ensures |JoinLines(lines)| == Total(lines) + if |lines| == 0 then 0 else |lines| - 1
  {
    if |lines| > 1 { JoinLength(lines[..|lines| - 1]); }
    else if |lines| == 1 { assert lines[..0] == []; }
  }

  /** One line per item, with a line break in between. */
  lemma JoinsLines(lines: seq<string>, last: string)
    ensures JoinLines([]) == "" && JoinLines([last]) == last
    ensures lines != [] ==> JoinLines(lines + [last]) == JoinLines(lines) + "\n" + last
  {
    assert (lines + [last])[..|lines|] == lines;
  }

  /** The packing loop of `build_evidence_context`, over the items' JSON encodings. It
      refuses non-positive limits, keeps the longest prefix within both limits, and says
      truncated exactly when something was left out. */
  method PackEvidence(encoded: seq<string>, maxItems: int, maxChars: int) returns (r: Option<Packed>)
    ensures r.None? <==> maxItems <= 0 || maxChars <= 0
    ensures r.Some? ==> var p := r.value;
      && p.selected <= |encoded|
      && (forall j :: 0 <= j <= |encoded| ==> (Within(encoded, j, maxItems, maxChars) <==> j <= p.selected))
      && (p.truncated <==> p.selected < |encoded|)
      && p.text == JoinLines(encoded[..p.selected])
      && (p.selected > 0 ==> |p.text| <= maxChars + p.selected - 1)
  {
    if maxItems <= 0 || maxChars <= 0 { return None; }
    var selected, used := 0, 0;
    var truncated := |encoded| > maxItems;
    while selected < |encoded|
      invariant selected <= |encoded| && selected <= maxItems
      invariant used == Total(encoded[..selected]) <= maxChars
      invariant truncated <==> |encoded| > maxItems
    {
      if selected >= maxItems { break; }
      assert encoded[..selected + 1][..selected] == encoded[..selected];
      if used + |encoded[selected]| > maxChars {
        truncated := true;
        break;
      }
      used := used + |encoded[selected]|;
      selected := selected + 1;
    }
    forall j | 0 <= j <= |encoded| ensures Within(encoded, j, maxItems, maxChars) <==> j <= selected {
      if j <= selected { TotalGrows(encoded, j, selected); }
      else { TotalGrows(encoded, selected + 1, j); }
    }
    JoinLength(encoded[..selected]);
    r := Some(Packed(selected, JoinLines(encoded[..selected]), truncated));
  }

  // ---- Audit sanitizing ----------------------------------------------------

  const MAX_ITEMS := 100
  const MAX_DEPTH := 6
  const MAX_KEY := 128

  /** Audit payloads. `Other` is any further object, by its `str(...)`. */
  datatype Json =
    | Obj(entries: seq<Entry>)
    | Arr(items: seq<Json>)
    | Text(s: string)
    | Number(n: int)
    | Flag(b: bool)
    | Null
    | Other(shown: string)

  datatype Entry = Entry(key: string, value: Json)

  /** The patterns that say which keys have their values redacted. */
  datatype Rules = Rules(secret: string -> bool)

  const MARK := "_truncated"

  function Clip(s: string, n: nat): string { if |s| > n then s[..n] else s }

  function Put(d: seq<Entry>, e: Entry): seq<Entry> {
    if d == [] then [e]
    else if d[0].key == e.key then [e] + d[1..]
    else [d[0]] + Put(d[1..], e)
  }

  /** Assign the entries in order into an insertion-ordered dictionary. */
  function Build(es: seq<Entry>): seq<Entry> {
    if es == [] then [] else Put(Build(es[..|es| - 1]), es[|es| - 1])
  }

  function First<X>(s: seq<X>, n: nat): seq<X> { if |s| > n then s[..n] else s }

  const MARKED := Entry(MARK, Flag(true))

  function Sanitize(r: Rules, v: Json, depth: nat): Json
    decreases v, 2
  {
    if depth >= MAX_DEPTH then Text(TRUNCATED)
    else
      match v
      case Obj(es) => Obj(SanitizeMap(r, es, depth))
      case Arr(items) => Arr(SanitizeList(r, items, depth))
      case Text(s) => Text(SafeText(s))
      case Other(shown) => Text(Clip(shown, MAX_TEXT))
      case _ => v
  }

  function SanitizeMap(r: Rules, es: seq<Entry>, depth: nat): seq<Entry>
    decreases es, 1
  {
    var kept := Build(SanitizeEntries(r, First(es, MAX_ITEMS), depth));
    if |es| > MAX_ITEMS then Put(kept, MARKED) else kept
  }

  function SanitizeList(r: Rules, items: seq<Json>, depth: nat): seq<Json>
    decreases items, 1
  {
    var kept := SanitizeItems(r, First(items, MAX_ITEMS), depth);
    if |items| > MAX_ITEMS then kept + [Text(TRUNCATED)] else kept
  }

  function SanitizeEntry(r: Rules, e: Entry, depth: nat): Entry
    decreases e, 3
  {
    var key := Clip(e.key, MAX_KEY);
    Entry(key, if r.secret(key) then Text(REDACTED) else Sanitize(r, e.value, depth + 1))
  }

  function SanitizeEntries(r: Rules, es: seq<Entry>, depth: nat): (out: seq<Entry>)
    ensures |out| == |es| && forall i :: 0 <= i < |es| ==> out[i] == SanitizeEntry(r, es[i], depth)
    decreases es, 0
  {
    if es == [] then [] else [SanitizeEntry(r, es[0], depth)] + SanitizeEntries(r, es[1..], depth)
  }

  function SanitizeItems(r: Rules, items: seq<Json>, depth: nat): (out: seq<Json>)
    ensures |out| == |items| && forall i :: 0 <= i < |items| ==> out[i] == Sanitize(r, items[i], depth + 1)
    decreases items, 0
  {
    if items == [] then [] else [Sanitize(r, items[0], depth + 1)] + SanitizeItems(r, items[1..], depth)
  }

  // ---- The dictionary being filled -----------------------------------------

  ghost predicate DistinctKeys(es: seq<Entry>) {
    forall i, j :: 0 <= i < j < |es| ==> es[i].key != es[j].key
  }

  ghost predicate HasKey(es: seq<Entry>, key: string) {
    exists i :: 0 <= i < |es| && es[i].key == key
  }

  lemma {:induction false} PutAppends(d: seq<Entry>, e: Entry)
    ensures if HasKey(d, e.key) then |Put(d, e)| == |d| else Put(d, e) == d + [e]
  {
    if d != [] && d[0].key != e.key {
      PutAppends(d[1..], e);
      assert d == [d[0]] + d[1..];
      if HasKey(d, e.key) {
        var i :| 0 <= i < |d| && d[i].key == e.key;
        assert d[1..][i - 1].key == e.key;
      }
    }
  }

  /** Same keys in the same places; only the assigned key gets a new value. */
  lemma {:induction false} PutAt(d: seq<Entry>, e: Entry)
    requires DistinctKeys(d)
    ensures |Put(d, e)| >= |d|
    ensures forall i :: 0 <= i < |d| ==> Put(d, e)[i] == if d[i].key == e.key then e else d[i]
  {
    if d != [] && d[0].key != e.key {
      PutAt(d[1..], e);
      assert d == [d[0]] + d[1..];
    }
  }

  lemma {:induction false} PutMembers(d: seq<Entry>, e: Entry)
    requires DistinctKeys(d)
    ensures DistinctKeys(Put(d, e))
    ensures forall x :: x in Put(d, e) <==> x == e || (x in d && x.key != e.key)
  {
    PutAppends(d, e);
    PutAt(d, e);
    var out := Put(d, e);
    hide Put;
    if HasKey(d, e.key) {
      var i :| 0 <= i < |d| && d[i].key == e.key;
      assert out[i] == e;
    }
    forall x | x in d && x.key != e.key ensures x in out {
      var i :| 0 <= i < |d| && d[i] == x;
      assert out[i] == x;
    }
  }

  /** The last assignment to its key. */
  ghost predicate Final(es: seq<Entry>, i: nat) {
    i < |es| && forall j :: i < j < |es| ==> es[j].key != es[i].key
  }

  /** A filled dictionary holds the last entry of every key, each key once. */
  lemma {:induction false} BuildMembers(es: seq<Entry>)
    ensures DistinctKeys(Build(es))
    ensures forall x :: x in Build(es) <==> exists i: nat :: Final(es, i) && es[i] == x
  {
    if es != [] {
      var n := |es| - 1;
      BuildMembers(es[..n]);
      PutMembers(Build(es[..n]), es[n]);
      assert Final(es, n);
      forall i: nat | i < n ensures Final(es, i) <==> Final(es[..n], i) && es[i].key != es[n].key {
        if Final(es[..n], i) && es[i].key != es[n].key {
          forall j | i < j < |es| ensures es[j].key != es[i].key {
            if j < n { assert es[..n][j] == es[j]; }
          }
        }
        if Final(es, i) {
          forall j | i < j < n ensures es[..n][j].key != es[..n][i].key { assert es[..n][j] == es[j]; }
        }
      }
    }
  }

  lemma DistinctStep(es: seq<Entry>)
    requires es != []
    ensures var n := |es| - 1; DistinctKeys(es) <==> DistinctKeys(es[..n]) && !HasKey(es[..n], es[n].key)
  {
    var n := |es| - 1;
    if HasKey(es[..n], es[n].key) {
      var i :| 0 <= i < n && es[..n][i].key == es[n].key;
      assert es[i].key == es[n].key;
    }
  }

  /** Nothing is overwritten exactly when all keys differ. */
  lemma {:induction false} BuildSize(es: seq<Entry>)
    ensures |Build(es)| <= |es| && (|Build(es)| == |es| <==> DistinctKeys(es))
    ensures DistinctKeys(es) ==> Build(es) == es
  {
    if es != [] {
      hide DistinctKeys, HasKey, Put;
      var n := |es| - 1;
      BuildSize(es[..n]);
      DistinctStep(es);
      PutAppends(Build(es[..n]), es[n]);
      assert es == es[..n] + [es[n]];
    }
  }

  // ---- One mapping ---------------------------------------------------------

  function Shown(es: seq<Entry>): nat { if |es| > MAX_ITEMS then MAX_ITEMS else |es| }

  function KeyOf(e: Entry): string { Clip(e.key, MAX_KEY) }

  /** Entry `i` of the input is still there after clipping and overwriting. */
  ghost predicate Survives(es: seq<Entry>, i: nat) {
    && i < Shown(es)
    && (forall j :: i < j < Shown(es) ==> KeyOf(es[j]) != KeyOf(es[i]))
    && (|es| > MAX_ITEMS ==> KeyOf(es[i]) != MARK)
  }

  /** The shown keys stay apart when clipped, and apart from the mark. */
  ghost predicate KeysApart(es: seq<Entry>) {
    && (forall i, j :: 0 <= i < j < Shown(es) ==> KeyOf(es[i]) != KeyOf(es[j]))
    && (forall i :: 0 <= i < Shown(es) ==> KeyOf(es[i]) != MARK)
  }

  lemma {:induction false} SanitizedPrefix(r: Rules, es: seq<Entry>, depth: nat, raw: seq<Entry>)
    requires raw == SanitizeEntries(r, First(es, MAX_ITEMS), depth)
    ensures |raw| == Shown(es)
    ensures forall i :: 0 <= i < |raw| ==> raw[i] == SanitizeEntry(r, es[i], depth) && raw[i].key == KeyOf(es[i])
  { }

  /** The dictionary after the optional assignment of the mark. */
  lemma {:induction false} Filled(raw: seq<Entry>, cut: bool)
    ensures var out := if cut then Put(Build(raw), MARKED) else Build(raw);
      && DistinctKeys(out)
      && forall x :: x in out <==>
           (cut && x == MARKED) || exists i: nat :: Final(raw, i) && raw[i] == x && (cut ==> raw[i].key != MARK)
  {
    BuildMembers(raw);
    PutMembers(Build(raw), MARKED);
  }

  lemma {:induction false} SurvivorsAreFinal(r: Rules, es: seq<Entry>, depth: nat, raw: seq<Entry>, i: nat)
    requires raw == SanitizeEntries(r, First(es, MAX_ITEMS), depth)
    ensures Survives(es, i) <==> Final(raw, i) && (|es| > MAX_ITEMS ==> raw[i].key != MARK)
    ensures i < |raw| ==> raw[i] == SanitizeEntry(r, es[i], depth)
  {
    SanitizedPrefix(r, es, depth, raw);
  }

  /** What a sanitized mapping holds: the surviving entries, sanitized, each key once, and
      the mark when entries were cut. */
  lemma {:induction false} MapHolds(r: Rules, es: seq<Entry>, depth: nat)
    ensures DistinctKeys(SanitizeMap(r, es, depth))
    ensures forall x :: x in SanitizeMap(r, es, depth) <==>
      (|es| > MAX_ITEMS && x == MARKED) || exists i: nat :: Survives(es, i) && x == SanitizeEntry(r, es[i], depth)
  {
    var raw := SanitizeEntries(r, First(es, MAX_ITEMS), depth);
    Filled(raw, |es| > MAX_ITEMS);
    forall i: nat
      ensures Survives(es, i) <==> Final(raw, i) && (|es| > MAX_ITEMS ==> raw[i].key != MARK)
      ensures i < |raw| ==> raw[i] == SanitizeEntry(r, es[i], depth)
    {
      SurvivorsAreFinal(r, es, depth, raw, i);
    }
  }

  /** Assigning the mark makes room for a 101st entry only if nothing collided before. */
  lemma {:induction false} FilledSize(raw: seq<Entry>, n: nat)
    requires |raw| == n
    ensures |Build(raw)| <= n
    ensures var out := Put(Build(raw), MARKED);
      && |out| <= n + 1
      && (|out| > n <==> DistinctKeys(raw) && !HasKey(raw, MARK))
      && (|out| > n ==> out[n] == MARKED)
  {
    BuildSize(raw);
    PutAppends(Build(raw), MARKED);
  }

  /** It has at most 101 entries, and 101 only when the last one is the mark and all shown
      keys stayed apart. */
  lemma {:induction false} MapSize(r: Rules, es: seq<Entry>, depth: nat)
    ensures var out := SanitizeMap(r, es, depth);
      && |out| <= MAX_ITEMS + 1
      && (|out| > MAX_ITEMS <==> |es| > MAX_ITEMS && KeysApart(es))
      && (|out| > MAX_ITEMS ==> out[MAX_ITEMS] == MARKED)
  {
    var raw := SanitizeEntries(r, First(es, MAX_ITEMS), depth);
    SanitizedPrefix(r, es, depth, raw);
    FilledSize(raw, |raw|);
    assert |es| > MAX_ITEMS ==> (KeysApart(es) <==> DistinctKeys(raw) && !HasKey(raw, MARK));
    hide KeysApart, DistinctKeys, HasKey, Build, Put;
  }

  // ---- Bounds --------------------------------------------------------------

  /** Containers nest at most `levels` deep and none holds more than 101 entries. */
  ghost predicate Bounded(v: Json, levels: nat)
    decreases v
  {
    match v
    case Obj(es) =>
      levels > 0 && |es| <= MAX_ITEMS + 1 && forall i :: 0 <= i < |es| ==> Bounded(es[i].value, levels - 1)
    case Arr(items) =>
      levels > 0 && |items| <= MAX_ITEMS + 1 && forall i :: 0 <= i < |items| ==> Bounded(items[i], levels - 1)
    case Other(_) => false
    case _ => true
  }

  lemma {:induction false} MapBounds(r: Rules, es: seq<Entry>, depth: nat)
    requires depth < MAX_DEPTH
    requires forall i :: 0 <= i < |es| ==> Bounded(Sanitize(r, es[i].value, depth + 1), MAX_DEPTH - depth - 1)
    ensures Bounded(Obj(SanitizeMap(r, es, depth)), MAX_DEPTH - depth)
  {
    MapSize(r, es, depth);
    MapHolds(r, es, depth);
    var out := SanitizeMap(r, es, depth);
    forall i | 0 <= i < |out| ensures Bounded(out[i].value, MAX_DEPTH - depth - 1) {
      assert out[i] in out;
      if out[i] != MARKED {
        var j: nat :| Survives(es, j) && out[i] == SanitizeEntry(r, es[j], depth);
      }
    }
  }

  lemma {:induction false} ListBounds(r: Rules, items: seq<Json>, depth: nat)
    requires depth < MAX_DEPTH
    requires forall i :: 0 <= i < |items| ==> Bounded(Sanitize(r, items[i], depth + 1), MAX_DEPTH - depth - 1)
    ensures Bounded(Arr(SanitizeList(r, items, depth)), MAX_DEPTH - depth)
  { }

  /** Whatever goes in, at most six levels of containers with at most 101 entries come out. */
  lemma {:induction false} SanitizeBounds(r: Rules, v: Json, depth: nat)
    requires depth <= MAX_DEPTH
    ensures Bounded(Sanitize(r, v, depth), MAX_DEPTH - depth)
    decreases v
  {
    if depth < MAX_DEPTH {
      match v
      case Obj(es) =>
        forall i | 0 <= i < |es| ensures Bounded(Sanitize(r, es[i].value, depth + 1), MAX_DEPTH - depth - 1) {
          SanitizeBounds(r, es[i].value, depth + 1);
        }
        MapBounds(r, es, depth);
      case Arr(items) =>
        forall i | 0 <= i < |items| ensures Bounded(Sanitize(r, items[i], depth + 1), MAX_DEPTH - depth - 1) {
          SanitizeBounds(r, items[i], depth + 1);
        }
        ListBounds(r, items, depth);
      case _ =>
    }
  }

  const MAX_BYTES := 16_384

  /** The stand-in for a payload that is too long. */
  function Oversize(bytes: nat): Json {
    Obj([Entry(MARK, Flag(true)), Entry("original_size_bytes", Number(bytes))])
  }

  /** `_bounded_dict`; `size` is the length of the UTF-8 JSON encoding. */
  function BoundedDict(r: Rules, size: Json -> nat, value: Option<seq<Entry>>): Option<Json> {
    if value.None? then None
    else
      var clean := Sanitize(r, Obj(value.value), 0);
      if size(clean) <= MAX_BYTES then Some(clean) else Some(Oversize(size(clean)))
  }

  /** What an audit row stores is always short, shallow and narrow. */
  lemma BoundedDictFits(r: Rules, size: Json -> nat, es: seq<Entry>)
    requires forall n :: size(Oversize(n)) <= MAX_BYTES
    ensures var out := BoundedDict(r, size, Some(es));
      && out.Some? && out.value.Obj? && size(out.value) <= 16_384 && Bounded(out.value, 6)
      && var clean := Sanitize(r, Obj(es), 0);
         out.value == if size(clean) <= 16_384 then clean
                      else Obj([Entry("_truncated", Flag(true)), Entry("original_size_bytes", Number(size(clean)))])
    ensures BoundedDict(r, size, None) == None
  {
    SanitizeBounds(r, Obj(es), 0);
  }

  // ---- Idempotence ---------------------------------------------------------

  ghost predicate Idempotent(r: Rules, v: Json, depth: nat) {
    Sanitize(r, Sanitize(r, v, depth), depth) == Sanitize(r, v, depth)
  }

  /** The values on which sanitizing twice is sanitizing once. A string that is shown is
      short once redacted, or its cut holds; text that is cut without being redacted has no
      secret to redact; and a mapping of more than a hundred entries on the last level keeps
      its shown keys apart: otherwise its mark, a `true`, is one of the first hundred
      entries and the second pass cuts it off as too deep. */
  ghost predicate Settles(r: Rules, v: Json, depth: nat)
    decreases v
  {
    depth >= MAX_DEPTH ||
    match v
    case Obj(es) =>
      && (depth + 1 == MAX_DEPTH && |es| > MAX_ITEMS ==> KeysApart(es))
      && forall i :: 0 <= i < |es| && Survives(es, i) && !r.secret(KeyOf(es[i])) ==> Settles(r, es[i].value, depth + 1)
    case Arr(items) => forall i :: 0 <= i < |items| && i < MAX_ITEMS ==> Settles(r, items[i], depth + 1)
    case Text(s) => |Redact(s)| <= MAX_TEXT || CutHolds(Redact(s)[..MAX_TEXT])
    case Other(shown) => Clean(Clip(shown, MAX_TEXT))
    case _ => true
  }

  ghost predicate EntryFixed(r: Rules, e: Entry, depth: nat) { SanitizeEntry(r, e, depth) == e }

  lemma {:induction false} EntryIdempotent(r: Rules, e: Entry, depth: nat)
    ensures EntryFixed(r, SanitizeEntry(r, e, depth), depth) <==>
      r.secret(KeyOf(e)) || Idempotent(r, e.value, depth + 1)
  { }

  lemma MarkFixed(r: Rules, depth: nat)
    requires !r.secret(MARK)
    ensures EntryFixed(r, MARKED, depth) <==> depth + 1 < MAX_DEPTH
  { }

  /** A second pass overwrites nothing: the keys are already apart. */
  lemma {:induction false} SecondPassKeeps(r: Rules, out: seq<Entry>, depth: nat, raw: seq<Entry>)
    requires DistinctKeys(out) && |out| <= MAX_ITEMS + 1
    requires |out| > MAX_ITEMS ==> out[MAX_ITEMS] == MARKED
    requires forall i :: 0 <= i < |out| ==> KeyOf(out[i]) == out[i].key
    requires raw == SanitizeEntries(r, First(out, MAX_ITEMS), depth)
    ensures SanitizeMap(r, out, depth) == if |out| > MAX_ITEMS then raw + [MARKED] else raw
  {
    SanitizedPrefix(r, out, depth, raw);
    BuildSize(raw);
    PutAppends(raw, MARKED);
  }

  /** Sanitizing an output mapping again: it stays exactly when its first hundred entries do. */
  lemma {:induction false} SecondPass(r: Rules, out: seq<Entry>, depth: nat)
    requires DistinctKeys(out) && |out| <= MAX_ITEMS + 1
    requires |out| > MAX_ITEMS ==> out[MAX_ITEMS] == MARKED
    requires forall i :: 0 <= i < |out| ==> KeyOf(out[i]) == out[i].key
    ensures SanitizeMap(r, out, depth) == out <==> forall i :: 0 <= i < Shown(out) ==> EntryFixed(r, out[i], depth)
  {
    var raw := SanitizeEntries(r, First(out, MAX_ITEMS), depth);
    SecondPassKeeps(r, out, depth, raw);
    SanitizedPrefix(r, out, depth, raw);
    hide DistinctKeys, SanitizeMap, SanitizeEntries;
    if |out| > MAX_ITEMS { assert out == out[..MAX_ITEMS] + [MARKED]; }
  }

  lemma {:induction false} OutputKeys(r: Rules, es: seq<Entry>, depth: nat)
    ensures forall x :: x in SanitizeMap(r, es, depth) ==> KeyOf(x) == x.key
  {
    MapHolds(r, es, depth);
  }

  ghost predicate SurvivorsFixed(r: Rules, es: seq<Entry>, depth: nat) {
    forall i: nat :: Survives(es, i) ==> EntryFixed(r, SanitizeEntry(r, es[i], depth), depth)
  }

  ghost predicate FirstFixed(r: Rules, out: seq<Entry>, depth: nat) {
    forall k :: 0 <= k < Shown(out) ==> EntryFixed(r, out[k], depth)
  }

  /** Of an output's first hundred entries, all but a possible mark are survivors. */
  lemma {:induction false} FirstFixedNeeds(r: Rules, es: seq<Entry>, depth: nat)
    requires !r.secret(MARK) && FirstFixed(r, SanitizeMap(r, es, depth), depth)
    ensures SurvivorsFixed(r, es, depth)
    ensures |es| > MAX_ITEMS && !KeysApart(es) ==> depth + 1 < MAX_DEPTH
  {
    var out := SanitizeMap(r, es, depth);
    MapHolds(r, es, depth);
    MapSize(r, es, depth);
    MarkFixed(r, depth);
    forall i: nat | Survives(es, i) ensures EntryFixed(r, SanitizeEntry(r, es[i], depth), depth) {
      var x := SanitizeEntry(r, es[i], depth);
      assert x in out;
      var k :| 0 <= k < |out| && out[k] == x;
      assert x.key == KeyOf(es[i]);
    }
    if |es| > MAX_ITEMS && !KeysApart(es) {
      assert MARKED in out;
      var k :| 0 <= k < |out| && out[k] == MARKED;
    }
  }

  lemma {:induction false} FirstFixedSuffices(r: Rules, es: seq<Entry>, depth: nat)
    requires !r.secret(MARK) && SurvivorsFixed(r, es, depth)
    requires |es| > MAX_ITEMS && !KeysApart(es) ==> depth + 1 < MAX_DEPTH
    ensures FirstFixed(r, SanitizeMap(r, es, depth), depth)
  {
    var out := SanitizeMap(r, es, depth);
    MapHolds(r, es, depth);
    MapSize(r, es, depth);
    MarkFixed(r, depth);
    forall k | 0 <= k < Shown(out) ensures EntryFixed(r, out[k], depth) {
      assert out[k] in out;
      if out[k] != MARKED {
        var i: nat :| Survives(es, i) && out[k] == SanitizeEntry(r, es[i], depth);
      } else if |es| <= MAX_ITEMS {
        var i: nat :| Survives(es, i) && out[k] == SanitizeEntry(r, es[i], depth);
      }
    }
  }

  lemma {:induction false} MapSettles(r: Rules, es: seq<Entry>, depth: nat)
    requires !r.secret(MARK) && depth < MAX_DEPTH
    requires forall i :: 0 <= i < |es| ==>
      (Idempotent(r, es[i].value, depth + 1) <==> Settles(r, es[i].value, depth + 1))
    ensures Idempotent(r, Obj(es), depth) <==> Settles(r, Obj(es), depth)
  {
    var out := SanitizeMap(r, es, depth);
    MapHolds(r, es, depth);
    MapSize(r, es, depth);
    OutputKeys(r, es, depth);
    forall i | 0 <= i < |out| ensures KeyOf(out[i]) == out[i].key { assert out[i] in out; }
    SecondPass(r, out, depth);
    forall i: nat | i < |es|
      ensures EntryFixed(r, SanitizeEntry(r, es[i], depth), depth) <==>
        r.secret(KeyOf(es[i])) || Settles(r, es[i].value, depth + 1)
    {
      EntryIdempotent(r, es[i], depth);
    }
    if FirstFixed(r, out, depth) { FirstFixedNeeds(r, es, depth); }
    if Settles(r, Obj(es), depth) { FirstFixedSuffices(r, es, depth); }
  }

  lemma {:induction false} ListSettles(r: Rules, items: seq<Json>, depth: nat)
    requires depth < MAX_DEPTH
    requires forall i :: 0 <= i < |items| ==> (Idempotent(r, items[i], depth + 1) <==> Settles(r, items[i], depth + 1))
    ensures Idempotent(r, Arr(items), depth) <==> Settles(r, Arr(items), depth)
  {
    var kept := SanitizeItems(r, First(items, MAX_ITEMS), depth);
    var out := SanitizeList(r, items, depth);
    assert First(out, MAX_ITEMS) == kept;
    var again := SanitizeItems(r, kept, depth);
    assert SanitizeList(r, out, depth) == out <==> again == kept;
    assert forall i :: 0 <= i < |kept| ==> kept[i] == Sanitize(r, items[i], depth + 1);
    if again == kept {
      forall i | 0 <= i < |kept| ensures Idempotent(r, items[i], depth + 1) { assert again[i] == kept[i]; }
    }
    if Settles(r, Arr(items), depth) {
      forall i | 0 <= i < |kept| ensures again[i] == kept[i] { assert Idempotent(r, items[i], depth + 1); }
    }
  }

  /** Sanitizing twice is sanitizing once, exactly on the values that settle. */
  lemma {:induction false} SanitizeIdempotent(r: Rules, v: Json, depth: nat)
    requires !r.secret(MARK)
    ensures Sanitize(r, Sanitize(r, v, depth), depth) == Sanitize(r, v, depth) <==> Settles(r, v, depth)
    decreases v
  {
    if depth < MAX_DEPTH {
      match v
      case Obj(es) =>
        forall i | 0 <= i < |es|
          ensures Idempotent(r, es[i].value, depth + 1) <==> Settles(r, es[i].value, depth + 1)
        {
          SanitizeIdempotent(r, es[i].value, depth + 1);
        }
        MapSettles(r, es, depth);
      case Arr(items) =>
        forall i | 0 <= i < |items| ensures Idempotent(r, items[i], depth + 1) <==> Settles(r, items[i], depth + 1) {
          SanitizeIdempotent(r, items[i], depth + 1);
        }
        ListSettles(r, items, depth);
      case Text(s) => SafeTextIdempotent(s);
      case Other(shown) => CutTextStays(Clip(shown, MAX_TEXT));
      case _ =>
    }
  }

  // ---- What becomes of each kind -------------------------------------------

  /** Texts are redacted and cut, objects shown by at most 1024 characters, everything on the
      seventh level replaced; of a list a hundred items stay, and then a mark; and an entry
      keeps at most 128 characters of its key and, under a secret one, nothing of its value. */
  lemma {:induction false} SanitizeSays(r: Rules, v: Json, s: string, items: seq<Json>, e: Entry, depth: nat)
    ensures depth >= 6 ==> Sanitize(r, v, depth) == Text("[TRUNCATED]")
    ensures depth < 6 ==> Sanitize(r, Text(s), depth) == Text(SafeText(s))
    ensures depth < 6 ==> Sanitize(r, Other(s), depth) == Text(if |s| <= 1024 then s else s[..1024])
    ensures depth < 6 ==>
      var out := Sanitize(r, Arr(items), depth);
      && out.Arr? && |out.items| == (if |items| <= 100 then |items| else 101)
      && (forall i :: 0 <= i < |items| && i < 100 ==> out.items[i] == Sanitize(r, items[i], depth + 1))
      && (|items| > 100 ==> out.items[100] == Text("[TRUNCATED]"))
    ensures var out := SanitizeEntry(r, e, depth);
      && out.key == (if |e.key| <= 128 then e.key else e.key[..128])
      && out.value == if r.secret(out.key) then Text("[REDACTED]") else Sanitize(r, e.value, depth + 1)
  {
    hide SafeText;
  }

  // ---- Values that stay as they are ----------------------------------------

  /** Nothing to cut and nothing to redact, down to six levels; what an earlier pass left in
      the place of something is as good as anything else. */
  ghost predicate Kept(r: Rules, v: Json, depth: nat)
    decreases v
  {
    if depth >= 6 then v == Text("[TRUNCATED]")
    else
      match v
      case Obj(es) =>
        && (forall i, j :: 0 <= i < j < |es| ==> es[i].key != es[j].key)
        && (|es| <= 100 || (|es| == 101 && es[100] == Entry("_truncated", Flag(true))))
        && forall i :: 0 <= i < |es| && i < 100 ==>
             && |es[i].key| <= 128
             && if r.secret(es[i].key) then es[i].value == Text("[REDACTED]") else Kept(r, es[i].value, depth + 1)
      case Arr(items) =>
        && (|items| <= 100 || (|items| == 101 && items[100] == Text("[TRUNCATED]")))
        && forall i :: 0 <= i < |items| && i < 100 ==> Kept(r, items[i], depth + 1)
      case Text(s) => SafeText(s) == s
      case Other(_) => false
      case _ => true
  }

  lemma EntryFixedExactly(r: Rules, e: Entry, depth: nat)
    ensures EntryFixed(r, e, depth) <==>
      && |e.key| <= 128
      && if r.secret(e.key) then e.value == Text("[REDACTED]") else Sanitize(r, e.value, depth + 1) == e.value
  {
    if |e.key| > MAX_KEY { assert |Clip(e.key, MAX_KEY)| == MAX_KEY; }
  }

  lemma {:induction false} MapKept(r: Rules, es: seq<Entry>, depth: nat)
    ensures SanitizeMap(r, es, depth) == es <==>
      && DistinctKeys(es)
      && (|es| <= 100 || (|es| == 101 && es[100] == Entry("_truncated", Flag(true))))
      && forall i :: 0 <= i < |es| && i < 100 ==> EntryFixed(r, es[i], depth)
  {
    var out := SanitizeMap(r, es, depth);
    MapHolds(r, es, depth);
    MapSize(r, es, depth);
    OutputKeys(r, es, depth);
    hide SanitizeMap;
    if out == es { assert forall i :: 0 <= i < |es| ==> es[i] in out; }
    if DistinctKeys(es) && |es| <= 101 && (|es| == 101 ==> es[100] == MARKED) {
      if forall i :: 0 <= i < |es| ==> KeyOf(es[i]) == es[i].key { SecondPass(r, es, depth); }
      forall i | 0 <= i < |es| && i < 100 && EntryFixed(r, es[i], depth) ensures KeyOf(es[i]) == es[i].key { }
    }
  }

  lemma {:induction false} ListKept(r: Rules, items: seq<Json>, depth: nat)
    ensures SanitizeList(r, items, depth) == items <==>
      && (|items| <= 100 || (|items| == 101 && items[100] == Text("[TRUNCATED]")))
      && forall i :: 0 <= i < |items| && i < 100 ==> Sanitize(r, items[i], depth + 1) == items[i]
  {
    var kept, out := SanitizeItems(r, First(items, MAX_ITEMS), depth), SanitizeList(r, items, depth);
    assert forall i :: 0 <= i < |kept| ==> kept[i] == Sanitize(r, items[i], depth + 1) && out[i] == kept[i];
  }

  /** Sanitizing leaves exactly these values as they are: numbers, flags, items and entries
      included, whatever their order. */
  lemma {:induction false} KeptExactly(r: Rules, v: Json, depth: nat)
    ensures Sanitize(r, v, depth) == v <==> Kept(r, v, depth)
    decreases v
  {
    if depth < MAX_DEPTH {
      match v
      case Obj(es) =>
        MapKept(r, es, depth);
        forall i | 0 <= i < |es|
          ensures EntryFixed(r, es[i], depth) <==>
            && |es[i].key| <= 128
            && if r.secret(es[i].key) then es[i].value == Text("[REDACTED]") else Kept(r, es[i].value, depth + 1)
        {
          EntryFixedExactly(r, es[i], depth);
          KeptExactly(r, es[i].value, depth + 1);
        }
        hide EntryFixed, SanitizeMap;
      case Arr(items) =>
        ListKept(r, items, depth);
        forall i | 0 <= i < |items|
          ensures Sanitize(r, items[i], depth + 1) == items[i] <==> Kept(r, items[i], depth + 1)
        {
          KeptExactly(r, items[i], depth + 1);
        }
        hide SanitizeList;
      case _ =>
    }
  }

  // ---- Two values that do not settle ---------------------------------------

  /** `n` letters more than a key may have. */
  function LongKey(n: nat): string { seq(MAX_KEY + 1 + n, _ => 'k') }

  /** 101 different keys that clip to one. */
  function Crowd(): seq<Entry> { seq(MAX_ITEMS + 1, i requires i >= 0 => Entry(LongKey(i), Null)) }

  function Nested(v: Json, levels: nat): Json { if levels == 0 then v else Arr([Nested(v, levels - 1)]) }

  lemma OneItemSettles(r: Rules, v: Json, depth: nat)
    requires depth < MAX_DEPTH
    ensures Settles(r, Arr([v]), depth) <==> Settles(r, v, depth + 1)
  {
    assert Arr([v]).items[0] == v;
  }

  lemma {:induction false} NestedSettles(r: Rules, v: Json, levels: nat, depth: nat)
    requires depth + levels < MAX_DEPTH
    ensures Settles(r, Nested(v, levels), depth) <==> Settles(r, v, depth + levels)
  {
    hide Settles;
    if levels > 0 {
      var inner := Nested(v, levels - 1);
      NestedSettles(r, v, levels - 1, depth + 1);
      OneItemSettles(r, inner, depth);
    }
  }

  /** On the sixth level, a mapping whose 101 keys differ beyond the clip: its mark is the
      second entry, and the second pass replaces it. */
  lemma CrowdedKeysDoNotSettle(r: Rules)
    requires !r.secret(MARK)
    ensures DistinctKeys(Crowd())
    ensures var v := Nested(Obj(Crowd()), MAX_DEPTH - 1); Sanitize(r, Sanitize(r, v, 0), 0) != Sanitize(r, v, 0)
  {
    var es := Crowd();
    forall i, j | 0 <= i < j < |es| ensures es[i].key != es[j].key { assert |es[i].key| != |es[j].key|; }
    assert KeyOf(es[0]) == KeyOf(es[1]);
    assert !KeysApart(es);
    NestedSettles(r, Obj(es), MAX_DEPTH - 1, 0);
    SanitizeIdempotent(r, Nested(Obj(es), MAX_DEPTH - 1), 0);
  }

  /** A password right before the cut. */
  lemma SwallowedMarkDoesNotSettle(r: Rules)
    ensures Sanitize(r, Sanitize(r, Text(SWALLOWED), 0), 0) != Sanitize(r, Text(SWALLOWED), 0)
  {
    MarkIsSwallowed();
  }
}
