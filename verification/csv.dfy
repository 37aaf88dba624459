/** `parseCSV` (utils.ts): the hand-rolled reader that turns the exported spreadsheet text
    into one plain object per data line, keyed by the header names. */
module Csv {
  import opened Types
  import opened Text
  import Numbers

  // ---------------------------------------------------------------------------
  // Plain objects with string values

  /** A JavaScript plain object with string values: its own keys in creation order, and their values. */
  datatype Record = Record(order: seq<string>, fields: map<string, string>)

  const EMPTY: Record := Record([], map[])

  /** The key whose assignment JavaScript diverts to the prototype setter. */
  const PROTO: string := "__proto__"

  ghost predicate Valid(r: Record) {
    Distinct(r.order) && (forall k :: k in r.fields <==> k in r.order)
  }

  /** `r[key]`: the value, or `undefined` for a key the object does not have. */
  function Get(r: Record, key: string): Option<string> {
    if key in r.fields then Some(r.fields[key]) else None
  }

  /** `r[key] = value`. A new key goes last in creation order, an existing key keeps its place,
      and a string assigned to `__proto__` is silently ignored. */
  function Put(r: Record, key: string, value: string): (r': Record)
    ensures Valid(r) ==> Valid(r')
    ensures key != PROTO ==> Get(r', key) == Some(value)
    ensures key == PROTO ==> r' == r
    ensures forall k :: k != key ==> Get(r', k) == Get(r, k)
  {
    if key == PROTO then r
    else if key in r.fields then r.(fields := r.fields[key := value])
    else Record(r.order + [key], r.fields[key := value])
  }

  /** A canonical array index: `"0"` or a digit string without a leading zero below 2^32 - 1. */
  predicate IsArrayIndex(k: string) {
    && |k| > 0 && AllDigits(k) && (k[0] != '0' || |k| == 1)
    && Numbers.RadixValue(k, 10) < 4294967295
  }

  predicate IsNamedKey(k: string) {
    !IsArrayIndex(k)
  }

  function IndexValue(k: string): nat {
    if IsArrayIndex(k) then Numbers.RadixValue(k, 10) else 0
  }

  /** `s` is ordered by `key`. */
  predicate SortedBy<T>(s: seq<T>, key: T -> nat) {
    forall i, j :: 0 <= i < j < |s| ==> key(s[i]) <= key(s[j])
  }

  function InsertBy<T>(x: T, s: seq<T>, key: T -> nat): (r: seq<T>)
    ensures multiset(r) == multiset(s) + multiset{x}
  {
    if |s| == 0 then [x]
    else if key(x) <= key(s[0]) then [x] + s
    else
      assert s == [s[0]] + s[1..];
      [s[0]] + InsertBy(x, s[1..], key)
  }

  lemma {:induction false} InsertBySorted<T>(x: T, s: seq<T>, key: T -> nat)
    requires SortedBy(s, key)
    ensures SortedBy(InsertBy(x, s, key), key)
  {
    if |s| > 0 && key(x) > key(s[0]) {
      var rest := InsertBy(x, s[1..], key);
      InsertBySorted(x, s[1..], key);
      forall i | 0 <= i < |rest|
        ensures key(s[0]) <= key(rest[i])
      {
        assert rest[i] in multiset(rest);
        if rest[i] != x {
          assert rest[i] in multiset(s[1..]);
          var j :| 0 <= j < |s[1..]| && s[1..][j] == rest[i];
          assert s[j + 1] == rest[i];
        }
      }
    }
  }

  /** Insertion sort by `key`: a permutation (the ordering is `SortBySorted`). */
  function SortBy<T>(s: seq<T>, key: T -> nat): (r: seq<T>)
    ensures multiset(r) == multiset(s)
  {
    if |s| == 0 then []
    else
      assert s == [s[0]] + s[1..];
      InsertBy(s[0], SortBy(s[1..], key), key)
  }

  lemma {:induction false} SortBySorted<T>(s: seq<T>, key: T -> nat)
    ensures SortedBy(SortBy(s, key), key)
  {
    if |s| > 0 {
      SortBySorted(s[1..], key);
      InsertBySorted(s[0], SortBy(s[1..], key), key);
    }
  }

  /** `Object.keys(r)`: array-index keys first in ascending numeric order, then every other key
      in creation order. It lists every own key once. */
  function ObjectKeys(r: Record): (ks: seq<string>)
    ensures multiset(ks) == multiset(r.order)
    ensures forall k :: k in ks <==> k in r.order
  {
    var sorted := SortBy(FilterSeq(r.order, IsArrayIndex), IndexValue);
    var ks := sorted + FilterSeq(r.order, IsNamedKey);
    FilterPartition(r.order, IsArrayIndex, IsNamedKey);
    assert forall k :: k in ks <==> k in multiset(ks);
    assert forall k :: k in r.order <==> k in multiset(r.order);
    ks
  }

  /** The order `Object.keys` promises: an array index is preceded only by smaller array indices,
      and the other keys keep their creation order. */
  lemma ObjectKeysOrder(r: Record)
    ensures var ks := ObjectKeys(r);
      && (forall i, j :: 0 <= i < j < |ks| && IsArrayIndex(ks[j]) ==>
            IsArrayIndex(ks[i]) && IndexValue(ks[i]) <= IndexValue(ks[j]))
      && FilterSeq(ks, IsNamedKey) == FilterSeq(r.order, IsNamedKey)
  {
    var indices := FilterSeq(r.order, IsArrayIndex);
    var named := FilterSeq(r.order, IsNamedKey);
    SortedIndices(indices);
    IndicesFirst(SortBy(indices, IndexValue), named);
    NamedAfter(SortBy(indices, IndexValue), named);
  }

  /** Sorting array indices gives array indices in ascending order. */
  lemma SortedIndices(indices: seq<string>)
    requires forall i :: 0 <= i < |indices| ==> IsArrayIndex(indices[i])
    ensures var sorted := SortBy(indices, IndexValue);
      SortedBy(sorted, IndexValue) && forall i :: 0 <= i < |sorted| ==> IsArrayIndex(sorted[i])
  {
    var sorted := SortBy(indices, IndexValue);
    SortBySorted(indices, IndexValue);
    forall i | 0 <= i < |sorted|
      ensures IsArrayIndex(sorted[i])
    {
      assert sorted[i] in multiset(sorted);
      assert sorted[i] in indices;
    }
  }

  /** Sorted array indices followed by named keys: every array index is preceded only by smaller ones. */
  lemma IndicesFirst(sorted: seq<string>, named: seq<string>)
    requires SortedBy(sorted, IndexValue) && forall i :: 0 <= i < |sorted| ==> IsArrayIndex(sorted[i])
    requires forall i :: 0 <= i < |named| ==> IsNamedKey(named[i])
    ensures var ks := sorted + named;
      forall i, j :: 0 <= i < j < |ks| && IsArrayIndex(ks[j]) ==>
        IsArrayIndex(ks[i]) && IndexValue(ks[i]) <= IndexValue(ks[j])
  {
    var ks := sorted + named;
    forall i, j | 0 <= i < j < |ks| && IsArrayIndex(ks[j])
      ensures IsArrayIndex(ks[i]) && IndexValue(ks[i]) <= IndexValue(ks[j])
    {
      assert j < |sorted|;
    }
  }

  /** Only the named part survives filtering for named keys. */
  lemma NamedAfter(sorted: seq<string>, named: seq<string>)
    requires forall i :: 0 <= i < |sorted| ==> IsArrayIndex(sorted[i])
    requires forall i :: 0 <= i < |named| ==> IsNamedKey(named[i])
    ensures FilterSeq(sorted + named, IsNamedKey) == named
  {
    FilterAllOut(sorted, IsNamedKey);
    FilterAppend(sorted, named, IsNamedKey);
    FilterAllIn(named, IsNamedKey);
  }

  // ---------------------------------------------------------------------------
  // The value scanner: `/(?:,|^)(?:"([^"]*)"|([^",]*))/g` driven by `exec`
  //
  // The scanner is described on the part of the line from `lastIndex` on. What the pattern does
  // there depends only on those characters and on whether `lastIndex` is still 0, where `^` holds.

  /** One `exec` result: the captured value, and how many characters from `lastIndex` up to the
      end of the match were passed over (the next `lastIndex` is the old one plus `end`). */
  datatype Match = Match(value: string, end: nat)

  /** The field part `"([^"]*)"|([^",]*)` at the start of `t`: a quoted value needs a closing
      quote; otherwise the unquoted run up to the next quote or comma (possibly empty) is taken.
      An empty capture and a missing one both give `''`. */
  function FieldAt(t: string): (m: Match)
    ensures m.end <= |t|
  {
    if |t| > 0 && t[0] == '"' && Span(t[1..], {'"'}) < |t| - 1 then
      var c := Span(t[1..], {'"'});
      Match(t[1..c + 1], c + 2)
    else
      var k := Span(t, {'"', ','});
      Match(t[..k], k)
  }

  /** The whole pattern tried at the start of `t`. The comma alternative comes first, so at
      index 0 a leading comma is consumed rather than matched by `^`. */
  function MatchAt(t: string, atStart: bool): (m: Option<Match>)
    ensures m.Some? ==> m.value.end <= |t|
  {
    if |t| > 0 && t[0] == ',' then
      var f := FieldAt(t[1..]);
      Some(Match(f.value, f.end + 1))
    else if atStart then Some(FieldAt(t))
    else None
  }

  /** `regex.exec(line)`: the leftmost match in `t`. */
  function Exec(t: string, atStart: bool): (m: Option<Match>)
    ensures m.Some? ==> m.value.end <= |t|
    decreases |t|
  {
    match MatchAt(t, atStart)
    case Some(m) => Some(m)
    case None =>
      if |t| == 0 then None
      else
        match Exec(t[1..], false)
        case None => None
        case Some(m) => Some(Match(m.value, m.end + 1))
  }

  /** The `while` loop: push each match's value until `exec` fails or `n` values are collected.
      A zero-length match leaves `lastIndex` where it was, so the same match repeats. */
  function ScanFrom(t: string, atStart: bool, n: nat, acc: seq<string>): (r: seq<string>)
    requires |acc| <= n
    ensures |r| <= n
    decreases |t|, n - |acc|
  {
    if |acc| == n then acc
    else
      match Exec(t, atStart)
      case None => acc
      case Some(m) => ScanFrom(t[m.end..], atStart && m.end == 0, n, acc + [m.value])
  }

  /** The values the scanner reads from one data line, at most `n` of them. */
  function ScanValues(line: string, n: nat): (r: seq<string>)
    ensures |r| <= n
  {
    ScanFrom(line, true, n, [])
  }

  // ---------------------------------------------------------------------------
  // What the scanner reads back

  /** How a spreadsheet export writes one cell: as it is, or between quotes when it holds a comma. */
  function EncodeField(f: string): string {
    if Avoids(f, {','}) then f else "\"" + f + "\""
  }

  /** The cells of one row written out, separated by commas. */
  function EncodeLine(fields: seq<string>): string {
    if |fields| == 0 then ""
    else if |fields| == 1 then EncodeField(fields[0])
    else EncodeField(fields[0]) + "," + EncodeLine(fields[1..])
  }

  /** What follows the first cell of an encoded line: nothing, or a comma and the other cells. */
  function AfterFirst(fields: seq<string>): string
    requires |fields| >= 1
  {
    if |fields| == 1 then "" else "," + EncodeLine(fields[1..])
  }

  lemma EncodeLineFirst(fields: seq<string>)
    requires |fields| >= 1
    ensures EncodeLine(fields) == EncodeField(fields[0]) + AfterFirst(fields)
  {
    if |fields| == 1 {
      assert EncodeField(fields[0]) + "" == EncodeField(fields[0]);
    }
  }

  /** An unquoted cell ends at the next comma or at the end of the line. */
  lemma FieldAtPlain(f: string, after: string)
    requires Avoids(f, {'"', ','}) && (|after| == 0 || after[0] == ',')
    ensures FieldAt(f + after) == Match(f, |f|)
  {
    var t := f + after;
    if |t| > 0 {
      if |f| > 0 {
        assert t[0] == f[0];
      } else {
        assert t[0] == after[0];
      }
    }
    SpanUpTo(f, after, {'"', ','});
    assert t[..|f|] == f;
  }

  /** A quoted cell is everything up to the closing quote, commas included. */
  lemma FieldAtQuoted(f: string, after: string)
    requires Avoids(f, {'"'})
    ensures FieldAt("\"" + f + "\"" + after) == Match(f, |f| + 2)
  {
    var t := "\"" + f + "\"" + after;
    assert t[1..] == f + ("\"" + after);
    SpanUpTo(f, "\"" + after, {'"'});
    assert t[1..|f| + 1] == f;
  }

  /** An encoded cell followed by a comma or the end of the line is read back as the cell. */
  lemma FieldAtEncoded(f: string, after: string)
    requires Avoids(f, {'"'}) && (|after| == 0 || after[0] == ',')
    ensures FieldAt(EncodeField(f) + after) == Match(f, |EncodeField(f)|)
  {
    if Avoids(f, {','}) {
      assert Avoids(f, {'"', ','});
      FieldAtPlain(f, after);
    } else {
      FieldAtQuoted(f, after);
    }
  }

  /** The first encoded cell of `fields` and what follows it. */
  lemma FieldAtFirst(fields: seq<string>)
    requires |fields| >= 1 && Avoids(fields[0], {'"'})
    ensures FieldAt(EncodeLine(fields)) == Match(fields[0], |EncodeField(fields[0])|)
    ensures EncodeLine(fields)[|EncodeField(fields[0])|..] == AfterFirst(fields)
  {
    EncodeLineFirst(fields);
    FieldAtEncoded(fields[0], AfterFirst(fields));
  }

  /** One turn of the loop: the match's value is pushed and scanning resumes where it ended. */
  lemma ScanStep(t: string, atStart: bool, n: nat, acc: seq<string>, m: Match)
    requires |acc| < n && Exec(t, atStart) == Some(m)
    ensures ScanFrom(t, atStart, n, acc) == ScanFrom(t[m.end..], atStart && m.end == 0, n, acc + [m.value])
  {
  }

  /** At the end of the line, past index 0, `exec` fails and the loop stops. */
  lemma ScanAtEnd(n: nat, acc: seq<string>)
    requires |acc| <= n
    ensures ScanFrom("", false, n, acc) == acc
  {
  }

  /** A comma and an encoded cell: the cell is pushed and scanning resumes after it. */
  lemma ScanCommaCell(fields: seq<string>, n: nat, acc: seq<string>)
    requires |fields| >= 1 && |acc| < n && Avoids(fields[0], {'"'})
    ensures ScanFrom("," + EncodeLine(fields), false, n, acc) == ScanFrom(AfterFirst(fields), false, n, acc + [fields[0]])
  {
    var t := "," + EncodeLine(fields);
    var e := |EncodeField(fields[0])| + 1;
    FieldAtFirst(fields);
    assert t[1..] == EncodeLine(fields);
    var m := Match(fields[0], e);
    assert Exec(t, false) == Some(m);
    ScanStep(t, false, n, acc, m);
    assert t[e..] == AfterFirst(fields);
  }

  /** The first encoded cell, at the start of the line: the cell is pushed and scanning resumes after it. */
  lemma ScanFirstCell(fields: seq<string>, n: nat)
    requires |fields| >= 1 && fields[0] != "" && n > 0 && Avoids(fields[0], {'"'})
    ensures ScanValues(EncodeLine(fields), n) == ScanFrom(AfterFirst(fields), false, n, [fields[0]])
  {
    var t := EncodeLine(fields);
    var e := |EncodeField(fields[0])|;
    FieldAtFirst(fields);
    assert t[0] == EncodeField(fields[0])[0];
    var m := Match(fields[0], e);
    assert Exec(t, true) == Some(m);
    ScanStep(t, true, n, [], m);
    assert e > 0;
    assert [] + [fields[0]] == [fields[0]];
  }

  /** After a comma, the scanner reads each remaining encoded cell in turn. */
  lemma {:induction false} ScanEncodedTail(fields: seq<string>, n: nat, acc: seq<string>)
    requires |fields| >= 1 && |acc| <= n
    requires forall i :: 0 <= i < |fields| ==> Avoids(fields[i], {'"'})
    ensures ScanFrom("," + EncodeLine(fields), false, n, acc) == acc + Take(fields, n - |acc|)
    decreases |fields|
  {
    if |acc| == n {
      assert Take(fields, 0) == [];
    } else {
      ScanCommaCell(fields, n, acc);
      ConsTake(acc, fields, n);
      if |fields| == 1 {
        ScanAtEnd(n, acc + [fields[0]]);
      } else {
        ScanEncodedTail(fields[1..], n, acc + [fields[0]]);
      }
    }
  }

  /** A row written by the export is read back cell for cell, commas inside quoted cells included,
      provided no cell holds a double quote and the first cell is not empty. */
  lemma ScanEncoded(fields: seq<string>, n: nat)
    requires |fields| >= 1 && fields[0] != ""
    requires forall i :: 0 <= i < |fields| ==> Avoids(fields[i], {'"'})
    ensures ScanValues(EncodeLine(fields), n) == Take(fields, n)
  {
    if n == 0 {
      assert Take(fields, n) == [];
    } else {
      ScanFirstCell(fields, n);
      TakeCons(fields, n);
      if |fields| == 1 {
        assert AfterFirst(fields) == "";
        ScanAtEnd(n, [fields[0]]);
        assert Take(fields[1..], n - 1) == [];
      } else {
        ScanEncodedTail(fields[1..], n, [fields[0]]);
      }
    }
  }

  /** Cells without commas are written as they are: the line is the cells joined by commas. */
  lemma {:induction false} EncodeLinePlain(parts: seq<string>)
    requires forall i :: 0 <= i < |parts| ==> Avoids(parts[i], {','})
    ensures EncodeLine(parts) == Join(parts, ",")
    decreases |parts|
  {
    if |parts| > 1 {
      EncodeLinePlain(parts[1..]);
    }
  }

  /** A line with no double quote that does not start with a comma: the values are the pieces
      between commas, empty ones included. */
  lemma ScanPlain(line: string, n: nat)
    requires Avoids(line, {'"'}) && |line| > 0 && line[0] != ','
    ensures ScanValues(line, n) == Take(Split(line, {','}), n)
  {
    var parts := Split(line, {','});
    SplitAvoids(line, {','}, {'"'});
    SplitAtSpan(line, {','});
    assert parts[0] != "" by {
      assert parts[0] == line[..Span(line, {','})];
    }
    EncodeLinePlain(parts);
    JoinSplit(line, ',');
    ScanEncoded(parts, n);
  }

  /** A leading comma is taken by the comma alternative, so `^` never matches. */
  lemma ScanCommaStart(t: string, n: nat, acc: seq<string>)
    requires |t| > 0 && t[0] == ',' && |acc| <= n
    ensures ScanFrom(t, true, n, acc) == ScanFrom(t, false, n, acc)
  {
    assert Exec(t, true) == Exec(t, false);
  }

  /** When a line starts with a comma (an empty first cell in the export), the value read for
      position `i` is the piece after comma `i + 1`: every value moves one column to the left. */
  lemma LeadingCommaShift(line: string, n: nat)
    requires Avoids(line, {'"'}) && |line| > 0 && line[0] == ','
    ensures ScanValues(line, n) == Take(Split(line, {','})[1..], n)
  {
    var rest := line[1..];
    var parts := Split(rest, {','});
    assert Split(line, {','}) == [""] + parts;
    assert Split(line, {','})[1..] == parts;
    SplitAvoids(rest, {','}, {'"'});
    EncodeLinePlain(parts);
    JoinSplit(rest, ',');
    assert line == "," + EncodeLine(parts);
    ScanCommaStart(line, n, []);
    ScanEncodedTail(parts, n, []);
    assert [] + Take(parts, n) == Take(parts, n);
  }

  // ---------------------------------------------------------------------------
  // Headers, records and the parser

  /** One leading `"` and one trailing `"` removed (`/^"|"$/g`). */
  function StripQuotes(t: string): (r: string)
    ensures |r| <= |t|
    ensures |t| >= 2 && t[0] == '"' && t[|t| - 1] == '"' ==> r == t[1..|t| - 1]
    ensures (|t| == 0 || (t[0] != '"' && t[|t| - 1] != '"')) ==> r == t
    ensures |t| > 0 && t[0] == '"' && t[|t| - 1] != '"' ==> r == t[1..]
    ensures |t| > 0 && t[0] != '"' && t[|t| - 1] == '"' ==> r == t[..|t| - 1]
  {
    var u := if |t| > 0 && t[0] == '"' then t[1..] else t;
    if |u| > 0 && u[|u| - 1] == '"' then u[..|u| - 1] else u
  }

  /** `r` is `t` with a leading `"` removed if there is one, and a trailing `"` removed if there is
      one, each on its own. */
  predicate QuotesStripped(t: string, r: string) {
    var start := if |t| > 0 && t[0] == '"' then 1 else 0;
    var end := if |t| > start && t[|t| - 1] == '"' then |t| - 1 else |t|;
    r == t[start..end]
  }

  /** A header name: trimmed, then stripped of its quotes. */
  function CleanHeader(h: string): (r: string)
    ensures |r| <= |Trim(h)|
  {
    StripQuotes(Trim(h))
  }

  /** `lines[0].split(',').map(...)`: every comma separates two header names. */
  function Headers(line: string): (hs: seq<string>)
    ensures |hs| == |Split(line, {','})| >= 1
    ensures forall i :: 0 <= i < |hs| ==> hs[i] == CleanHeader(Split(line, {','})[i])
    ensures forall i :: 0 <= i < |hs| ==> QuotesStripped(Trim(Split(line, {','})[i]), hs[i])
  {
    var parts := Split(line, {','});
    seq(|parts|, i requires 0 <= i < |parts| => CleanHeader(parts[i]))
  }

  /** `values[i] ? values[i].trim() : ''`. */
  function Cell(values: seq<string>, i: nat): string {
    if i < |values| && values[i] != "" then Trim(values[i]) else ""
  }

  /** The object after the first `k` header assignments, header `j` receiving `cells[j]`. */
  function BuildPrefix(headers: seq<string>, cells: seq<string>, k: nat): (r: Record)
    requires k <= |headers| && k <= |cells|
  {
    if k == 0 then EMPTY
    else Put(BuildPrefix(headers, cells, k - 1), headers[k - 1], cells[k - 1])
  }

  /** Every prefix of the assignments leaves a well-formed object. */
  lemma {:induction false} BuildPrefixValid(headers: seq<string>, cells: seq<string>, k: nat)
    requires k <= |headers| && k <= |cells|
    ensures Valid(BuildPrefix(headers, cells, k))
    decreases k
  {
    if k > 0 {
      BuildPrefixValid(headers, cells, k - 1);
    }
  }

  /** The keys after `k` assignments are the first `k` header names, except `__proto__`. */
  lemma {:induction false} BuildPrefixKeys(headers: seq<string>, cells: seq<string>, k: nat)
    requires k <= |headers| && k <= |cells|
    ensures forall key :: key in BuildPrefix(headers, cells, k).fields <==> key != PROTO && key in headers[..k]
    decreases k
  {
    if k > 0 {
      BuildPrefixKeys(headers, cells, k - 1);
      assert headers[..k] == headers[..k - 1] + [headers[k - 1]];
    }
  }

  /** The header at position `i` is not repeated before position `k`. */
  predicate LastBefore(headers: seq<string>, i: nat, k: nat)
    requires i < k <= |headers|
  {
    forall j :: i < j < k ==> headers[j] != headers[i]
  }

  /** The `k`-th assignment sets its own key. */
  lemma BuildPrefixSets(headers: seq<string>, cells: seq<string>, k: nat)
    requires 0 < k <= |headers| && k <= |cells| && headers[k - 1] != PROTO
    ensures Get(BuildPrefix(headers, cells, k), headers[k - 1]) == Some(cells[k - 1])
  {
  }

  /** The `k`-th assignment leaves every other key as it was. */
  lemma BuildPrefixKeeps(headers: seq<string>, cells: seq<string>, k: nat, key: string)
    requires 0 < k <= |headers| && k <= |cells| && key != headers[k - 1]
    ensures Get(BuildPrefix(headers, cells, k), key) == Get(BuildPrefix(headers, cells, k - 1), key)
  {
  }

  /** A header that is not repeated later holds the value of its own position. */
  lemma {:induction false} BuildPrefixValue(headers: seq<string>, cells: seq<string>, k: nat, i: nat)
    requires i < k <= |headers| && k <= |cells| && headers[i] != PROTO && LastBefore(headers, i, k)
    ensures Get(BuildPrefix(headers, cells, k), headers[i]) == Some(cells[i])
    decreases k
  {
    if i == k - 1 {
      BuildPrefixSets(headers, cells, k);
    } else {
      assert headers[k - 1] != headers[i];
      BuildPrefixKeeps(headers, cells, k, headers[i]);
      BuildPrefixValue(headers, cells, k - 1, i);
    }
  }

  /** The value each header receives: the trimmed value at its position, or `''`. */
  function Cells(headers: seq<string>, values: seq<string>): (cells: seq<string>)
    ensures |cells| == |headers|
    ensures forall i :: 0 <= i < |headers| ==> cells[i] == Cell(values, i)
  {
    seq(|headers|, i requires 0 <= i < |headers| => Cell(values, i))
  }

  /** One row object: `headers.forEach((h, i) => entry[h] = ...)`. Its keys are exactly the header
      names; the value under a header is the trimmed value at that position, or `''` when the line
      ran out of values. A repeated header holds the value of its last position. */
  function BuildRecord(headers: seq<string>, values: seq<string>): (r: Record)
    ensures Valid(r)
    ensures forall key :: key in r.fields <==> key != PROTO && key in headers
    ensures forall i :: 0 <= i < |headers| && headers[i] != PROTO && LastBefore(headers, i, |headers|) ==>
      && headers[i] in r.fields
      && (i < |values| ==> r.fields[headers[i]] == Trim(values[i]))
      && (i >= |values| ==> r.fields[headers[i]] == "")
  {
    var cells := Cells(headers, values);
    BuildPrefixValid(headers, cells, |headers|);
    BuildRecordKeys(headers, cells);
    BuildRecordValues(headers, values);
    BuildPrefix(headers, cells, |headers|)
  }

  lemma BuildRecordKeys(headers: seq<string>, cells: seq<string>)
    requires |cells| == |headers|
    ensures forall key :: key in BuildPrefix(headers, cells, |headers|).fields <==> key != PROTO && key in headers
  {
    BuildPrefixKeys(headers, cells, |headers|);
    assert headers[..|headers|] == headers;
  }

  lemma BuildRecordValues(headers: seq<string>, values: seq<string>)
    ensures var r := BuildPrefix(headers, Cells(headers, values), |headers|);
      forall i :: 0 <= i < |headers| && headers[i] != PROTO && LastBefore(headers, i, |headers|) ==>
        && headers[i] in r.fields
        && (i < |values| ==> r.fields[headers[i]] == Trim(values[i]))
        && (i >= |values| ==> r.fields[headers[i]] == "")
  {
    var cells := Cells(headers, values);
    forall i | 0 <= i < |headers| && headers[i] != PROTO && LastBefore(headers, i, |headers|)
      ensures Get(BuildPrefix(headers, cells, |headers|), headers[i]) == Some(Cell(values, i))
    {
      BuildPrefixValue(headers, cells, |headers|, i);
    }
    assert Trim("") == "";
  }

  predicate IsNonBlank(line: string) {
    Trim(line) != ""
  }

  /** `text.split('\n').filter(line => line.trim() !== '')`. */
  function NonBlankLines(text: string): seq<string> {
    FilterSeq(Split(text, {'\n'}), IsNonBlank)
  }

  /** One data line read against the header names. */
  function Row(hs: seq<string>, line: string): (r: Record)
    ensures Valid(r)
    ensures forall key :: key in r.fields <==> key != PROTO && key in hs
  {
    BuildRecord(hs, ScanValues(line, |hs|))
  }

  /** `lines.slice(1).map(...)`: one row per data line, in order. */
  function Rows(hs: seq<string>, lines: seq<string>): (rows: seq<Record>)
    ensures |rows| == |lines|
  {
    if |lines| == 0 then [] else [Row(hs, lines[0])] + Rows(hs, lines[1..])
  }

  lemma {:induction false} RowsAt(hs: seq<string>, lines: seq<string>, i: nat)
    requires i < |lines|
    ensures Rows(hs, lines)[i] == Row(hs, lines[i])
    decreases i
  {
    if i > 0 {
      RowsAt(hs, lines[1..], i - 1);
    }
  }

  /** The parser after line splitting: the first line names the columns, every later line is a row. */
  function ParseLines(lines: seq<string>): (rows: seq<Record>)
    ensures |lines| < 2 ==> rows == []
    ensures |lines| >= 2 ==> |rows| == |lines| - 1
  {
    if |lines| < 2 then [] else Rows(Headers(lines[0]), lines[1..])
  }

  /** `parseCSV(text)`: nothing unless there is a header line and at least one data line; then one
      object per non-blank line after the first, in input order. */
  function ParseCsv(text: string): (rows: seq<Record>)
    ensures |NonBlankLines(text)| < 2 ==> rows == []
    ensures |NonBlankLines(text)| >= 2 ==> |rows| == |NonBlankLines(text)| - 1
  {
    ParseLines(NonBlankLines(text))
  }

  /** Row `i` is read from line `i + 1`, and its keys are exactly the header names of line 0. */
  lemma ParseLinesRow(lines: seq<string>, i: nat)
    requires i + 1 < |lines|
    ensures ParseLines(lines)[i] == Row(Headers(lines[0]), lines[i + 1])
    ensures Valid(ParseLines(lines)[i])
    ensures forall key :: key in ParseLines(lines)[i].fields <==> key != PROTO && key in Headers(lines[0])
  {
    RowsAt(Headers(lines[0]), lines[1..], i);
  }

  // ---------------------------------------------------------------------------
  // Reading back an exported table

  /** A header written without quotes and without surrounding spaces is kept as it is. */
  lemma CleanHeaderPlain(h: string)
    requires IsTrimmed(h) && Avoids(h, {'"'})
    ensures CleanHeader(h) == h
  {
    TrimOfTrimmed(h);
  }

  /** A quoted header loses its quotes and the spaces around them. */
  lemma CleanHeaderQuoted(a: string, h: string, b: string)
    requires AllSpace(a) && AllSpace(b)
    ensures CleanHeader(a + ("\"" + h + "\"") + b) == h
  {
    var q := "\"" + h + "\"";
    QuoteNotSpace();
    assert q[0] == '"' && q[|q| - 1] == '"';
    TrimPadded(a, q, b);
    StripQuotesOfQuoted(h);
  }

  lemma QuoteNotSpace()
    ensures !IsSpace('"')
  {
  }

  lemma StripQuotesOfQuoted(h: string)
    ensures StripQuotes("\"" + h + "\"") == h
  {
    var q := "\"" + h + "\"";
    assert q[1..|q| - 1] == h;
  }

  /** A line whose comma-separated pieces are all plain header names reads back as those pieces. */
  lemma HeadersOfPlainParts(line: string, parts: seq<string>)
    requires Split(line, {','}) == parts
    requires forall i :: 0 <= i < |parts| ==> CleanHeader(parts[i]) == parts[i]
    ensures Headers(line) == parts
  {
  }

  /** The header line of an export is read back as the column names. */
  lemma HeadersOfJoin(names: seq<string>)
    requires |names| >= 1
    requires forall i :: 0 <= i < |names| ==> IsTrimmed(names[i]) && Avoids(names[i], {',', '"'})
    ensures Headers(Join(names, ",")) == names
  {
    forall i | 0 <= i < |names|
      ensures Avoids(names[i], {','}) && CleanHeader(names[i]) == names[i]
    {
      CleanHeaderPlain(names[i]);
    }
    SplitJoin(names, ',');
    HeadersOfPlainParts(Join(names, ","), names);
  }

  /** The names of a table: non-empty, free of the characters the format gives meaning to,
      without surrounding spaces, all different, and none of them `__proto__`. */
  predicate GoodNames(names: seq<string>) {
    && |names| >= 1 && names[0] != "" && Distinct(names)
    && forall i :: 0 <= i < |names| ==>
      IsTrimmed(names[i]) && Avoids(names[i], {',', '"', '\n'}) && names[i] != PROTO
  }

  /** A row of a table: one cell per column, the first one not empty, no cell with a double quote
      or a line break in it, and no cell with surrounding spaces. */
  predicate GoodRow(row: seq<string>, width: nat) {
    && |row| == width && width >= 1 && row[0] != ""
    && forall j :: 0 <= j < |row| ==> IsTrimmed(row[j]) && Avoids(row[j], {'"', '\n'})
  }

  /** The text of an exported table: the header line, then one line per row. */
  function TableLines(names: seq<string>, rows: seq<seq<string>>): (lines: seq<string>)
    ensures |lines| == |rows| + 1
  {
    [Join(names, ",")] + seq(|rows|, i requires 0 <= i < |rows| => EncodeLine(rows[i]))
  }

  function TableText(names: seq<string>, rows: seq<seq<string>>): string {
    Join(TableLines(names, rows), "\n")
  }

  lemma {:induction false} EncodeLineAvoids(fields: seq<string>, other: set<char>)
    requires ',' !in other && '"' !in other
    requires forall i :: 0 <= i < |fields| ==> Avoids(fields[i], other)
    ensures Avoids(EncodeLine(fields), other)
    decreases |fields|
  {
    if |fields| > 0 {
      EncodeLineFirst(fields);
      if |fields| > 1 {
        EncodeLineAvoids(fields[1..], other);
      }
    }
  }

  /** A line the export writes: no line break in it, and not blank. */
  predicate KeptLine(line: string) {
    Avoids(line, {'\n'}) && IsNonBlank(line)
  }

  lemma HeaderLineKept(names: seq<string>)
    requires GoodNames(names)
    ensures KeptLine(Join(names, ","))
  {
    assert forall i :: 0 <= i < |names| ==> Avoids(names[i], {'\n'});
    JoinAvoids(names, ",", {'\n'});
    JoinStartsWith(names, ",");
    TrimNotBlank(Join(names, ","));
  }

  lemma RowLineKept(row: seq<string>, width: nat)
    requires GoodRow(row, width)
    ensures KeptLine(EncodeLine(row))
  {
    assert forall i :: 0 <= i < |row| ==> Avoids(row[i], {'\n'});
    EncodeLineAvoids(row, {'\n'});
    EncodeLineFirst(row);
    TrimNotBlank(EncodeLine(row));
  }

  /** Every line of an exported table is one line of the text, and none is blank. */
  lemma TableLinesKept(names: seq<string>, rows: seq<seq<string>>)
    requires GoodNames(names)
    requires forall i :: 0 <= i < |rows| ==> GoodRow(rows[i], |names|)
    ensures NonBlankLines(TableText(names, rows)) == TableLines(names, rows)
  {
    var lines := TableLines(names, rows);
    HeaderLineKept(names);
    RowLinesKept(rows, |names|);
    TableLinesShape(names, rows);
    AllKeptAvoid(lines);
    SplitJoin(lines, '\n');
    assert Split(TableText(names, rows), {'\n'}) == lines;
    KeepNonBlank(lines);
  }

  lemma AllKeptAvoid(lines: seq<string>)
    requires forall i :: 0 <= i < |lines| ==> KeptLine(lines[i])
    ensures forall i :: 0 <= i < |lines| ==> Avoids(lines[i], {'\n'})
  {
  }

  lemma KeepNonBlank(lines: seq<string>)
    requires forall i :: 0 <= i < |lines| ==> KeptLine(lines[i])
    ensures FilterSeq(lines, IsNonBlank) == lines
  {
    FilterAllIn(lines, IsNonBlank);
  }

  /** The lines of a table are kept when its header line and every row line are. */
  lemma TableLinesShape(names: seq<string>, rows: seq<seq<string>>)
    requires KeptLine(Join(names, ","))
    requires forall i :: 0 <= i < |rows| ==> KeptLine(EncodeLine(rows[i]))
    ensures forall i :: 0 <= i < |TableLines(names, rows)| ==> KeptLine(TableLines(names, rows)[i])
  {
    forall i | 0 <= i < |TableLines(names, rows)|
      ensures KeptLine(TableLines(names, rows)[i])
    {
      if i > 0 {
        TableLineAt(names, rows, i - 1);
      }
    }
  }

  /** Line `i + 1` of a table is row `i` written out. */
  lemma TableLineAt(names: seq<string>, rows: seq<seq<string>>, i: nat)
    requires i < |rows|
    ensures TableLines(names, rows)[i + 1] == EncodeLine(rows[i])
  {
  }

  lemma RowLinesKept(rows: seq<seq<string>>, width: nat)
    requires forall i :: 0 <= i < |rows| ==> GoodRow(rows[i], width)
    ensures forall i :: 0 <= i < |rows| ==> KeptLine(EncodeLine(rows[i]))
  {
    forall i | 0 <= i < |rows|
      ensures KeptLine(EncodeLine(rows[i]))
    {
      RowLineKept(rows[i], width);
    }
  }

  /** A row written by the export is read back as the record mapping each column name to its cell. */
  lemma RowOfEncoded(names: seq<string>, row: seq<string>)
    requires GoodNames(names) && GoodRow(row, |names|)
    ensures forall j :: 0 <= j < |names| ==> Get(Row(names, EncodeLine(row)), names[j]) == Some(row[j])
  {
    assert forall j :: 0 <= j < |row| ==> Avoids(row[j], {'"'});
    ScanEncoded(row, |names|);
    var r := BuildRecord(names, row);
    forall j | 0 <= j < |names|
      ensures Get(r, names[j]) == Some(row[j])
    {
      assert LastBefore(names, j, |names|);
      TrimOfTrimmed(row[j]);
    }
  }

  /** Reading an exported table gives one record per row, each read from that row's line. */
  lemma ParseCsvOfTable(names: seq<string>, rows: seq<seq<string>>)
    requires GoodNames(names) && |rows| >= 1
    requires forall i :: 0 <= i < |rows| ==> GoodRow(rows[i], |names|)
    ensures var parsed := ParseCsv(TableText(names, rows));
      && |parsed| == |rows|
      && forall i :: 0 <= i < |rows| ==> parsed[i] == Row(names, EncodeLine(rows[i]))
  {
    TableLinesKept(names, rows);
    GoodNamesHeaders(names);
    ParsedTable(names, rows);
  }

  /** Once the kept lines are the table's lines and the header line reads back as the names,
      every row is read from its own line. */
  lemma ParsedTable(names: seq<string>, rows: seq<seq<string>>)
    requires NonBlankLines(TableText(names, rows)) == TableLines(names, rows)
    requires Headers(Join(names, ",")) == names
    ensures var parsed := ParseCsv(TableText(names, rows));
      && |parsed| == |rows|
      && forall i :: 0 <= i < |rows| ==> parsed[i] == Row(names, EncodeLine(rows[i]))
  {
    forall i | 0 <= i < |rows|
      ensures ParseLines(TableLines(names, rows))[i] == Row(names, EncodeLine(rows[i]))
    {
      ParseTableLine(names, rows, i);
    }
  }

  /** The header line of a table reads back as its names. */
  lemma GoodNamesHeaders(names: seq<string>)
    requires GoodNames(names)
    ensures Headers(Join(names, ",")) == names
  {
    assert forall i :: 0 <= i < |names| ==> IsTrimmed(names[i]) && Avoids(names[i], {',', '"'});
    HeadersOfJoin(names);
  }

  /** Row `i` of a table is read from its own line against the table's names. */
  lemma ParseTableLine(names: seq<string>, rows: seq<seq<string>>, i: nat)
    requires i < |rows| && Headers(Join(names, ",")) == names
    ensures ParseLines(TableLines(names, rows))[i] == Row(names, EncodeLine(rows[i]))
  {
    ParseLinesRow(TableLines(names, rows), i);
    TableLineAt(names, rows, i);
  }


  /** Reading an exported table back: the record of row `i` maps the name of column `j` to the
      cell in row `i`, column `j`, and its keys are exactly the column names. */
  lemma TableRoundTrip(names: seq<string>, rows: seq<seq<string>>, i: nat)
    requires GoodNames(names) && i < |rows|
    requires forall k :: 0 <= k < |rows| ==> GoodRow(rows[k], |names|)
    ensures var parsed := ParseCsv(TableText(names, rows));
      && |parsed| == |rows|
      && (forall key :: key in parsed[i].fields <==> key in names)
      && forall j :: 0 <= j < |names| == |rows[i]| ==> Get(parsed[i], names[j]) == Some(rows[i][j])
  {
    ParseCsvOfTable(names, rows);
    RowOfEncoded(names, rows[i]);
  }
}
