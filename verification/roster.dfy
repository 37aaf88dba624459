/** `fetchMembers` (services/googleSheet.ts) after the download: every row object of the
    exported sheet becomes a member. Columns are found by name fragments, the payment column is
    read as a yes/no, every column that looks like a prize record adds to the member's history,
    and finally the row's own columns are spread over the computed fields. */
module Roster {
  import opened Types
  import opened Text
  import opened Csv

  /** The ten pass backgrounds, also used as the fallback image of the member at the same position. */
  const DEFAULT_IMAGES: seq<string> := [
    "https://drive.google.com/file/d/19GnkjVFkIVumPCP82vNLtw3KSlUlmmQp/view?usp=drivesdk",
    "https://drive.google.com/file/d/1w-xb5fbA1VFx2cL6h71qYTg6SHhMVyFv/view?usp=drivesdk",
    "https://drive.google.com/file/d/1WwInvzBVjlN0lKn1Qj_0EN5nCn3AFKzS/view?usp=drivesdk",
    "https://drive.google.com/file/d/1ya69kWqk5I51rZi3b3segCSlguJvROqS/view?usp=drivesdk",
    "https://drive.google.com/file/d/1OKgnXQiRIHdOYhzHkN2xHekhJhZJ2UI2/view?usp=drivesdk",
    "https://drive.google.com/file/d/1o8O3jrNVUh1WqvJCFslzorKJssnDQlI2/view?usp=drivesdk",
    "https://drive.google.com/file/d/1Xk0XDbU9YrScl5KE4NudYyddRA0mvO_O/view?usp=drivesdk",
    "https://drive.google.com/file/d/11hWN3SIEc-i2BoaM5gv0vxxjWBevY9WE/view?usp=drivesdk",
    "https://drive.google.com/file/d/14cT5cd4vz81cSb4aeB0upPsctTOFKEOq/view?usp=drivesdk",
    "https://drive.google.com/file/d/1bvol3kzgyV601iwDNJUceokAgK-i6Ekw/view?usp=drivesdk"
  ]

  // Column-name fragments, in the order they are tried.
  const IMAGE_TERMS: seq<string> := ["imagen", "foto", "photo", "img"]
  const PAYMENT_TERMS: seq<string> := ["cuota", "pagad", "pago", "estado", "status", "situacion", "corriente", "2024"]
  const ID_TERMS: seq<string> := ["id", "socio", "n\U{00FA}mero", "numero"]
  const NAME_TERMS: seq<string> := ["nombre", "name", "apellidos"]
  const PHONE_TERMS: seq<string> :=
    ["tel\U{00E9}fono", "telefono", "movil", "phone", "tfn", "tfno", "celular", "m\U{00F3}vil"]

  /** Cell values read as "yes". A cleaned value counts as paid when it starts with any of them. */
  const POSITIVE: seq<string> := [
    "SI", "S\U{00CD}", "S", "YES", "Y", "TRUE", "T", "1", "PAGADO", "PAGADA",
    "OK", "ACTIVO", "ACTIVA", "AL CORRIENTE", "COMPLETADO"
  ]

  // Column-name fragments of the history scan.
  const LIST_TERMS: seq<string> := ["historial", "anteriores", "ganados", "history", "premios"]
  const MATCH_TERMS: seq<string> := ["ganador", "winner", "premiado", "partido", "match", "jornada", "encuentro", "vs"]
  const EXCLUDED_TERMS: seq<string> :=
    ["nombre", "name", "apellidos", "id", "socio", "tel", "phone", "cuota", "pago", "pagad"]

  // ---------------------------------------------------------------------------
  // Finding columns

  /** Case-insensitive substring test of a column name against a search term. */
  predicate KeyMatches(key: string, term: string) {
    Contains(Lower(key), Lower(term))
  }

  /** `keys.find(k => k.toLowerCase().includes(term.toLowerCase()))`, as a position. */
  function FindIndex(keys: seq<string>, term: string): (r: Option<nat>)
    ensures r.Some? ==> r.value < |keys| && KeyMatches(keys[r.value], term)
    ensures r.Some? ==> forall i :: 0 <= i < r.value ==> !KeyMatches(keys[i], term)
    ensures r.None? ==> forall i :: 0 <= i < |keys| ==> !KeyMatches(keys[i], term)
  {
    if |keys| == 0 then None
    else if KeyMatches(keys[0], term) then Some(0)
    else match FindIndex(keys[1..], term)
      case None => None
      case Some(i) => Some(i + 1)
  }

  /** `findKey(terms)`: the terms are tried in order; the first key matching a term is the answer
      unless it is the empty key, which is falsy and makes the search go on. `''` when nothing matches. */
  function FindKey(keys: seq<string>, terms: seq<string>): (r: string)
    ensures r == "" || r in keys
  {
    if |terms| == 0 then ""
    else match FindIndex(keys, terms[0])
      case Some(i) => if keys[i] != "" then keys[i] else FindKey(keys, terms[1..])
      case None => FindKey(keys, terms[1..])
  }

  /** No key matches the term. */
  predicate NoKeyMatches(keys: seq<string>, term: string) {
    forall i :: 0 <= i < |keys| ==> !KeyMatches(keys[i], term)
  }

  /** No key matches any of the first `j` terms. */
  predicate NoneMatchBefore(keys: seq<string>, terms: seq<string>, j: nat)
    requires j <= |terms|
  {
    forall j' :: 0 <= j' < j ==> NoKeyMatches(keys, terms[j'])
  }

  /** `keys[i]` is the first key matching `terms[j]`, and no key matches an earlier term. */
  predicate FirstMatchAt(keys: seq<string>, terms: seq<string>, j: nat, i: nat) {
    && j < |terms| && i < |keys| && KeyMatches(keys[i], terms[j])
    && (forall i' :: 0 <= i' < i ==> !KeyMatches(keys[i'], terms[j]))
    && NoneMatchBefore(keys, terms, j)
  }

  /** `key` is what searching for the terms should give: the first key, in key order, matching the
      first term that some key matches. */
  predicate IsFirstMatch(keys: seq<string>, terms: seq<string>, key: string) {
    exists j: nat, i: nat :: j < |terms| && i < |keys| && FirstMatchAt(keys, terms, j, i) && key == keys[i]
  }

  /** An empty key never matches a non-empty term. */
  lemma EmptyKeyNoMatch(term: string)
    requires term != ""
    ensures !KeyMatches("", term)
  {
  }

  /** A first term that no key matches shifts the position of the first match by one. */
  lemma FirstMatchCons(keys: seq<string>, terms: seq<string>, j: nat, i: nat)
    requires |terms| > 0 && NoKeyMatches(keys, terms[0]) && FirstMatchAt(keys, terms[1..], j, i)
    ensures FirstMatchAt(keys, terms, j + 1, i)
  {
    forall j' | 0 <= j' < j + 1
      ensures NoKeyMatches(keys, terms[j'])
    {
      if j' > 0 {
        assert terms[j'] == terms[1..][j' - 1];
      }
    }
  }

  /** Same for a search in which no term matches. */
  lemma NoneMatchCons(keys: seq<string>, terms: seq<string>)
    requires |terms| > 0 && NoKeyMatches(keys, terms[0]) && NoneMatchBefore(keys, terms[1..], |terms| - 1)
    ensures NoneMatchBefore(keys, terms, |terms|)
  {
    forall j' | 0 <= j' < |terms|
      ensures NoKeyMatches(keys, terms[j'])
    {
      if j' > 0 {
        assert terms[j'] == terms[1..][j' - 1];
      }
    }
  }

  /** For non-empty search terms, `findKey` returns the first match of the first term that any key
      matches, and `''` exactly when no key matches any term. */
  lemma {:induction false} FindKeyFirst(keys: seq<string>, terms: seq<string>)
    requires forall j :: 0 <= j < |terms| ==> terms[j] != ""
    ensures var r := FindKey(keys, terms);
      && (r == "" <==> NoneMatchBefore(keys, terms, |terms|))
      && (r != "" ==> IsFirstMatch(keys, terms, r))
    decreases |terms|
  {
    if |terms| > 0 {
      var rest := terms[1..];
      FindKeyFirst(keys, rest);
      EmptyKeyNoMatch(terms[0]);
      var r := FindKey(keys, terms);
      match FindIndex(keys, terms[0])
      case Some(i) =>
        assert keys[i] != "";
        assert FirstMatchAt(keys, terms, 0, i);
      case None =>
        if r != "" {
          var j: nat, i: nat :| FirstMatchAt(keys, rest, j, i) && r == keys[i];
          FirstMatchCons(keys, terms, j, i);
        } else {
          NoneMatchCons(keys, terms);
        }
        if NoneMatchBefore(keys, terms, |terms|) {
          assert NoneMatchBefore(keys, rest, |rest|) by {
            forall j' | 0 <= j' < |rest|
              ensures NoKeyMatches(keys, rest[j'])
            {
              assert rest[j'] == terms[j' + 1];
            }
          }
        }
    }
  }

  /** `row[key] || fallback`: the value when it is present and not empty, the fallback otherwise. */
  function OrElse(v: Option<string>, fallback: string): (r: string)
    ensures fallback != "" ==> r != ""
    ensures v.Some? && v.value != "" ==> r == v.value
  {
    if v.Some? && v.value != "" then v.value else fallback
  }

  // ---------------------------------------------------------------------------
  // Image

  /** The image column's value, or the default image of the row's position when it is empty or
      there is no image column. */
  function ImageUrl(row: Record, keys: seq<string>, index: nat): string {
    var imgKey := FindKey(keys, IMAGE_TERMS);
    var raw := if imgKey != "" then Get(row, imgKey) else Some("");
    if !(raw.Some? && raw.value != "") && index < |DEFAULT_IMAGES| then DEFAULT_IMAGES[index]
    else if !(raw.Some? && raw.value != "") then DEFAULT_IMAGES[index % |DEFAULT_IMAGES|]
    else raw.value
  }

  /** The two fallback branches agree: the image is never empty, and it is the column value when
      there is one and otherwise the default image at the row's position modulo ten. */
  lemma ImageUrlChoice(row: Record, keys: seq<string>, index: nat)
    ensures var imgKey := FindKey(keys, IMAGE_TERMS);
      var column := if imgKey != "" then Get(row, imgKey) else None;
      && ImageUrl(row, keys, index) != ""
      && ImageUrl(row, keys, index) == OrElse(column, DEFAULT_IMAGES[index % 10])
  {
    DefaultImagesNonEmpty();
    if index < 10 {
      assert index % 10 == index;
    }
  }

  lemma DefaultImagesNonEmpty()
    ensures |DEFAULT_IMAGES| == 10 && forall i :: 0 <= i < 10 ==> DEFAULT_IMAGES[i] != ""
  {
  }

  // ---------------------------------------------------------------------------
  // Payment

  predicate NotQuote(c: char) {
    c != '"' && c != '\''
  }

  /** `value.replace(/["']/g, '').trim()`. */
  function CleanValue(s: string): (r: string)
    ensures IsTrimmed(r) && Avoids(r, {'"', '\''})
  {
    var k := Keep(s, NotQuote);
    var r := Trim(k);
    assert forall i :: 0 <= i < |r| ==> r[i] in k;
    r
  }

  /** The payment check on the cleaned, upper-cased value: equal to or starting with a positive word. */
  predicate IsPositiveText(clean: string) {
    StartsWithAny(clean, POSITIVE)
  }

  /** The value of the payment column, or `'NO'` when there is none. The keys are the row's own,
      so the column found always has a value; the `None` branch only keeps the function total. */
  function PaymentValue(row: Record, keys: seq<string>): (v: string)
    ensures FindKey(keys, PAYMENT_TERMS) == "" ==> v == "NO"
    ensures FindKey(keys, PAYMENT_TERMS) != "" && FindKey(keys, PAYMENT_TERMS) in row.fields ==> Some(v) == Get(row, FindKey(keys, PAYMENT_TERMS))
  {
    var key := FindKey(keys, PAYMENT_TERMS);
    if key == "" then "NO"
    else match Get(row, key)
      case Some(v) => v
      case None => "NO"
  }

  function IsPaid(row: Record, keys: seq<string>): bool
  {
    IsPositiveText(Upper(CleanValue(PaymentValue(row, keys))))
  }

  /** The positive words longer than one character that do not start with S, Y or T. */
  const LONG_POSITIVE: seq<string> := ["PAGADO", "PAGADA", "OK", "ACTIVO", "ACTIVA", "AL CORRIENTE", "COMPLETADO"]

  /** Since `S`, `Y`, `T` and `1` are themselves positive words, the check comes down to the
      first character or one of the longer words. */
  lemma PositiveTextIff(c: string)
    ensures IsPositiveText(c) <==> (|c| > 0 && c[0] in {'S', 'Y', 'T', '1'}) || StartsWithAny(c, LONG_POSITIVE)
  {
    if |c| > 0 && c[0] in {'S', 'Y', 'T', '1'} {
      var w := if c[0] == 'S' then 2 else if c[0] == 'Y' then 4 else if c[0] == 'T' then 6 else 7;
      assert POSITIVE[w] <= c;
    }
    if StartsWithAny(c, LONG_POSITIVE) {
      var i :| 0 <= i < |LONG_POSITIVE| && LONG_POSITIVE[i] <= c;
      assert POSITIVE[i + 8] == LONG_POSITIVE[i];
    }
    if IsPositiveText(c) {
      var i :| 0 <= i < |POSITIVE| && POSITIVE[i] <= c;
      if i >= 8 {
        assert LONG_POSITIVE[i - 8] == POSITIVE[i];
      } else {
        assert POSITIVE[i][0] in {'S', 'Y', 'T', '1'};
      }
    }
  }

  /** Anything starting with S counts: `"SIN PAGAR"` reads as paid, while `"NO"` and `""` do not. */
  lemma PositiveTextExamples()
    ensures IsPositiveText("SIN PAGAR") && !IsPositiveText("NO") && !IsPositiveText("")
  {
    assert POSITIVE[2] <= "SIN PAGAR";
    forall i | 0 <= i < |POSITIVE|
      ensures !(POSITIVE[i] <= "NO") && !(POSITIVE[i] <= "")
    {
      assert POSITIVE[i][0] != 'N' && |POSITIVE[i]| > 0;
    }
  }

  // ---------------------------------------------------------------------------
  // History

  /** The items of a list column: each trimmed, kept when non-empty and not `NO`. */
  function ListItems(items: seq<string>): (r: seq<string>)
    ensures forall i :: 0 <= i < |r| ==> IsListItem(r[i])
    ensures forall x :: x in r <==> exists i :: 0 <= i < |items| && ListItem(items[i]) == Some(x)
  {
    if |items| == 0 then []
    else
      var rest := ListItems(items[1..]);
      ShiftedItems(items);
      match ListItem(items[0])
      case Some(item) =>
        ConsItems(item, rest);
        [item] + rest
      case None => rest
  }

  /** An item kept from `items` is the first one or kept from the rest. */
  lemma ShiftedItems(items: seq<string>)
    requires |items| > 0
    ensures forall x :: (exists i :: 0 <= i < |items| && ListItem(items[i]) == Some(x)) <==>
      ListItem(items[0]) == Some(x) || exists j :: 0 <= j < |items[1..]| && ListItem(items[1..][j]) == Some(x)
  {
    forall x, i | 0 <= i < |items| && ListItem(items[i]) == Some(x) && i > 0
      ensures exists j :: 0 <= j < |items[1..]| && ListItem(items[1..][j]) == Some(x)
    {
      assert items[1..][i - 1] == items[i];
    }
    forall x, j | 0 <= j < |items[1..]| && ListItem(items[1..][j]) == Some(x)
      ensures exists i :: 0 <= i < |items| && ListItem(items[i]) == Some(x)
    {
      assert items[j + 1] == items[1..][j];
    }
  }

  /** The items keep their order: the items of two lists in turn are those of their concatenation. */
  lemma {:induction false} ListItemsAppend(a: seq<string>, b: seq<string>)
    ensures ListItems(a + b) == ListItems(a) + ListItems(b)
    decreases |a|
  {
    if |a| == 0 {
      assert a + b == b;
    } else {
      var ab := a + b;
      assert ab[0] == a[0] && ab[1..] == a[1..] + b;
      ListItemsCons(a);
      ListItemsCons(ab);
      ListItemsAppend(a[1..], b);
      AppendAssoc(OneItem(a[0]), ListItems(a[1..]), ListItems(b));
    }
  }

  /** What one cell piece adds: its item, or nothing. */
  function OneItem(raw: string): seq<string> {
    match ListItem(raw)
    case Some(item) => [item]
    case None => []
  }

  lemma ListItemsCons(items: seq<string>)
    requires |items| > 0
    ensures ListItems(items) == OneItem(items[0]) + ListItems(items[1..])
  {
  }

  lemma ConsItems(item: string, rest: seq<string>)
    requires IsListItem(item) && forall i :: 0 <= i < |rest| ==> IsListItem(rest[i])
    ensures forall i :: 0 <= i < |[item] + rest| ==> IsListItem(([item] + rest)[i])
  {
  }

  /** One item of a list column: trimmed, and dropped when empty or `NO` in any case. */
  function ListItem(raw: string): (r: Option<string>)
    ensures r.Some? ==> IsListItem(r.value) && r.value == Trim(raw)
    ensures r.None? ==> Trim(raw) == "" || IsNo(Trim(raw))
  {
    var item := Trim(raw);
    if item != "" && !IsNo(item) then Some(item) else None
  }

  /** What a kept list item looks like: trimmed, not empty, and not `NO` in any case. */
  predicate IsListItem(item: string) {
    item != "" && !IsNo(item) && IsTrimmed(item)
  }

  /** `NO` in any case, the text whose upper-case form is `NO`. */
  predicate IsNo(s: string) {
    |s| == 2 && s[0] in {'N', 'n'} && s[1] in {'O', 'o'}
  }

  /** `item.toUpperCase() !== 'NO'` is the test `IsNo` makes. */
  lemma IsNoIff(s: string)
    ensures IsNo(s) <==> Upper(s) == "NO"
  {
    if |s| == 2 {
      if Upper(s) == "NO" {
        assert UpperChar(s[0]) == 'N' && UpperChar(s[1]) == 'O';
      }
      if IsNo(s) {
        assert Upper(s) == [UpperChar(s[0]), UpperChar(s[1])];
      }
    }
  }

  /** A column name containing a match fragment is not empty. */
  lemma MatchColumnNamed(key: string)
    requires ContainsAny(Lower(key), MATCH_TERMS)
    ensures key != ""
  {
    var j :| 0 <= j < |MATCH_TERMS| && Contains(Lower(key), MATCH_TERMS[j]);
    ContainsIff(Lower(key), MATCH_TERMS[j]);
    var i :| OccursAt(Lower(key), MATCH_TERMS[j], i);
  }

  /** A match column's contribution for a non-empty cleaned value: the column name when the value
      is exactly a positive word, the value when it is longer than two characters, never `NO`. */
  function MatchEntry(key: string, value: string): (r: seq<string>)
    requires key != "" && value != ""
    ensures forall i :: 0 <= i < |r| ==> r[i] != ""
  {
    var upper := Upper(value);
    var positive := upper in POSITIVE;
    if (positive || |value| > 2) && upper != "NO" then
      if positive then [key] else [value]
    else []
  }

  /** What one column adds to the history. A list column (historial, anteriores, ganados, history,
      premios) adds its comma- or semicolon-separated items. A match column (ganador, winner,
      premiado, partido, match, jornada, encuentro, vs) that does not also look like a name, id,
      phone or payment column adds its `MatchEntry`. Blank cells add nothing. */
  function ColumnEntries(key: string, raw: Option<string>): (r: seq<string>)
    ensures forall i :: 0 <= i < |r| ==> r[i] != ""
  {
    var value := if raw.Some? then CleanValue(raw.value) else "";
    var lowerKey := Lower(key);
    if value == "" then []
    else if ContainsAny(lowerKey, LIST_TERMS) then ListItems(Split(value, {',', ';'}))
    else if ContainsAny(lowerKey, MATCH_TERMS) && !ContainsAny(lowerKey, EXCLUDED_TERMS) then
      MatchColumnNamed(key);
      MatchEntry(key, value)
    else []
  }

  /** `historySet.add(e)`: appended unless already present. */
  function Add(seen: seq<string>, e: string): (r: seq<string>)
    requires Distinct(seen)
    ensures Distinct(r) && forall x :: x in r <==> x in seen || x == e
    ensures seen <= r
  {
    if e in seen then seen else seen + [e]
  }

  function AddAll(seen: seq<string>, es: seq<string>): (r: seq<string>)
    requires Distinct(seen)
    ensures Distinct(r) && forall x :: x in r <==> x in seen || x in es
    ensures seen <= r
    decreases |es|
  {
    if |es| == 0 then seen else AddAll(Add(seen, es[0]), es[1..])
  }

  /** The history after scanning `keys` in order, starting from `seen`. */
  function HistoryFrom(row: Record, keys: seq<string>, seen: seq<string>): (r: seq<string>)
    requires Distinct(seen)
    ensures Distinct(r)
  {
    if |keys| == 0 then seen
    else HistoryFrom(row, keys[1..], AddAll(seen, ColumnEntries(keys[0], Get(row, keys[0]))))
  }

  /** An entry comes from some column. */
  predicate FromSomeColumn(row: Record, keys: seq<string>, e: string) {
    exists i :: 0 <= i < |keys| && e in ColumnEntries(keys[i], Get(row, keys[i]))
  }

  /** The history holds each entry of each column once, and nothing else. */
  lemma {:induction false} HistoryFromMembers(row: Record, keys: seq<string>, seen: seq<string>, e: string)
    requires Distinct(seen)
    ensures e in HistoryFrom(row, keys, seen) <==> e in seen || FromSomeColumn(row, keys, e)
    decreases |keys|
  {
    if |keys| > 0 {
      var next := AddAll(seen, ColumnEntries(keys[0], Get(row, keys[0])));
      HistoryFromMembers(row, keys[1..], next, e);
      if FromSomeColumn(row, keys[1..], e) {
        var i :| 0 <= i < |keys[1..]| && e in ColumnEntries(keys[1..][i], Get(row, keys[1..][i]));
        assert keys[1..][i] == keys[i + 1];
      }
      if FromSomeColumn(row, keys, e) {
        var i :| 0 <= i < |keys| && e in ColumnEntries(keys[i], Get(row, keys[i]));
        if i > 0 {
          assert keys[i] == keys[1..][i - 1];
        }
      }
    }
  }

  /** The member's history: distinct entries, none empty, each contributed by some column. */
  lemma HistoryShape(row: Record, keys: seq<string>)
    ensures var h := HistoryFrom(row, keys, []);
      && Distinct(h)
      && (forall e :: e in h <==> FromSomeColumn(row, keys, e))
      && (forall i :: 0 <= i < |h| ==> h[i] != "")
  {
    var h := HistoryFrom(row, keys, []);
    forall e
      ensures e in h <==> FromSomeColumn(row, keys, e)
    {
      HistoryFromMembers(row, keys, [], e);
    }
    forall i | 0 <= i < |h|
      ensures h[i] != ""
    {
      HistoryFromMembers(row, keys, [], h[i]);
      var k :| 0 <= k < |keys| && h[i] in ColumnEntries(keys[k], Get(row, keys[k]));
    }
  }

  // ---------------------------------------------------------------------------
  // The order of the history

  /** `s` without any occurrence of `e`. */
  function Remove(s: seq<string>, e: string): (r: seq<string>)
    ensures |r| <= |s|
    ensures forall x :: x in r <==> x in s && x != e
  {
    if |s| == 0 then []
    else if s[0] == e then Remove(s[1..], e)
    else [s[0]] + Remove(s[1..], e)
  }

  /** `s` without any element of `seen`. */
  function RemoveAll(s: seq<string>, seen: seq<string>): (r: seq<string>)
    ensures forall x :: x in r <==> x in s && x !in seen
  {
    if |s| == 0 then []
    else if s[0] in seen then RemoveAll(s[1..], seen)
    else [s[0]] + RemoveAll(s[1..], seen)
  }

  /** The elements of `s` without repeats, each at its first occurrence: the order in which
      `Array.from` lists a `Set` filled from `s`. */
  function Dedup(s: seq<string>): (r: seq<string>)
    ensures Distinct(r) && forall x :: x in r <==> x in s
    decreases |s|
  {
    if |s| == 0 then []
    else
      var rest := Dedup(Remove(s[1..], s[0]));
      DistinctCons(s[0], rest);
      [s[0]] + rest
  }

  lemma DistinctCons(x: string, rest: seq<string>)
    requires Distinct(rest) && x !in rest
    ensures Distinct([x] + rest)
  {
    forall i, j | 0 <= i < j < |[x] + rest|
      ensures ([x] + rest)[i] != ([x] + rest)[j]
    {
      if i == 0 {
        assert ([x] + rest)[j] == rest[j - 1];
      }
    }
  }

  /** Removing `seen` and then `e` is removing `seen + [e]`. */
  lemma {:induction false} RemoveAllSnoc(s: seq<string>, seen: seq<string>, e: string)
    ensures Remove(RemoveAll(s, seen), e) == RemoveAll(s, seen + [e])
    decreases |s|
  {
    if |s| > 0 {
      RemoveAllSnoc(s[1..], seen, e);
      assert s[0] in seen + [e] <==> s[0] in seen || s[0] == e;
    }
  }

  /** Adding the entries `es` one by one keeps the old entries in place and appends the new ones
      in the order they first occur in `es`. */
  lemma {:induction false} AddAllDedup(seen: seq<string>, es: seq<string>)
    requires Distinct(seen)
    ensures AddAll(seen, es) == seen + Dedup(RemoveAll(es, seen))
    decreases |es|
  {
    if |es| == 0 {
      assert seen + [] == seen;
    } else {
      var e, t := es[0], es[1..];
      if e in seen {
        AddAllDedup(seen, t);
      } else {
        AddAllDedup(seen + [e], t);
        RemoveAllSnoc(t, seen, e);
        assert Dedup(RemoveAll(es, seen)) == [e] + Dedup(RemoveAll(t, seen + [e]));
        AppendAssoc(seen, [e], Dedup(RemoveAll(t, seen + [e])));
      }
    }
  }

  /** Adding `a` and then `b` is adding `a + b`. */
  lemma {:induction false} AddAllAppend(seen: seq<string>, a: seq<string>, b: seq<string>)
    requires Distinct(seen)
    ensures AddAll(AddAll(seen, a), b) == AddAll(seen, a + b)
    decreases |a|
  {
    if |a| == 0 {
      assert a + b == b;
      AddAllNone(seen);
    } else {
      var ab := a + b;
      assert ab[0] == a[0] && ab[1..] == a[1..] + b;
      var next := Add(seen, a[0]);
      AddAllStep(seen, a);
      AddAllStep(seen, ab);
      AddAllAppend(next, a[1..], b);
    }
  }

  lemma AddAllNone(seen: seq<string>)
    requires Distinct(seen)
    ensures AddAll(seen, []) == seen
  {
  }

  /** One entry added, then the rest. */
  lemma AddAllStep(seen: seq<string>, es: seq<string>)
    requires Distinct(seen) && |es| > 0
    ensures AddAll(seen, es) == AddAll(Add(seen, es[0]), es[1..])
  {
  }

  /** Every column's entries, column after column in key order. */
  function AllEntries(row: Record, keys: seq<string>): seq<string>
  {
    if |keys| == 0 then [] else ColumnEntries(keys[0], Get(row, keys[0])) + AllEntries(row, keys[1..])
  }

  lemma {:induction false} HistoryFromAll(row: Record, keys: seq<string>, seen: seq<string>)
    requires Distinct(seen)
    ensures HistoryFrom(row, keys, seen) == AddAll(seen, AllEntries(row, keys))
    decreases |keys|
  {
    if |keys| > 0 {
      var first := ColumnEntries(keys[0], Get(row, keys[0]));
      HistoryFromAll(row, keys[1..], AddAll(seen, first));
      AddAllAppend(seen, first, AllEntries(row, keys[1..]));
    }
  }

  lemma {:induction false} RemoveAllNothing(s: seq<string>)
    ensures RemoveAll(s, []) == s
    decreases |s|
  {
    if |s| > 0 {
      RemoveAllNothing(s[1..]);
    }
  }

  /** `Array.from(historySet)`: the history lists every column's entries in key order, each at
      its first occurrence. */
  lemma HistoryOrder(row: Record, keys: seq<string>)
    ensures HistoryFrom(row, keys, []) == Dedup(AllEntries(row, keys))
  {
    HistoryFromAll(row, keys, []);
    AddAllDedup([], AllEntries(row, keys));
    RemoveAllNothing(AllEntries(row, keys));
    assert [] + Dedup(AllEntries(row, keys)) == Dedup(AllEntries(row, keys));
  }

  /** A "Partido ..." column never counts as a match column: `partido` contains `id`, one of the
      excluded fragments. */
  lemma PartidoExcluded(key: string, raw: Option<string>)
    requires Contains(Lower(key), "partido") && !ContainsAny(Lower(key), LIST_TERMS)
    ensures ColumnEntries(key, raw) == []
  {
    assert "partido"[4..6] == "id";
    ContainsAt("partido", "id", 4);
    ContainsTransitive(Lower(key), "partido", "id");
    assert EXCLUDED_TERMS[3] == "id";
  }

  /** A match column that is neither a list column nor an excluded one contributes its
      `MatchEntry`. */
  lemma MatchColumnEntries(key: string, raw: string)
    requires ContainsAny(Lower(key), MATCH_TERMS)
    requires !ContainsAny(Lower(key), LIST_TERMS) && !ContainsAny(Lower(key), EXCLUDED_TERMS)
    requires CleanValue(raw) != ""
    ensures key != "" && ColumnEntries(key, Some(raw)) == MatchEntry(key, CleanValue(raw))
  {
    MatchColumnNamed(key);
  }

  /** A list column contributes exactly the kept items of its cleaned value split at `,` and `;`. */
  lemma ListColumnEntries(key: string, raw: string)
    requires ContainsAny(Lower(key), LIST_TERMS) && CleanValue(raw) != ""
    ensures var parts := Split(CleanValue(raw), {',', ';'});
      forall x :: x in ColumnEntries(key, Some(raw)) <==> exists i :: 0 <= i < |parts| && ListItem(parts[i]) == Some(x)
  {
    ListColumnIs(key, raw);
  }

  lemma ListColumnIs(key: string, raw: string)
    requires ContainsAny(Lower(key), LIST_TERMS) && CleanValue(raw) != ""
    ensures ColumnEntries(key, Some(raw)) == ListItems(Split(CleanValue(raw), {',', ';'}))
  {
  }

  /** `"Celta; no ;Betis"` lists `Celta` and `Betis`: the `no` between them is dropped. */
  lemma ListItemsExample(cell: string)
    requires cell == "Celta; no ;Betis"
    ensures ListItems(Split(cell, {',', ';'})) == ["Celta", "Betis"]
  {
    ExampleSplit(cell);
    var parts := Split(cell, {',', ';'});
    ListItemsThree(parts[0], parts[1], parts[2]);
    assert parts == [parts[0], parts[1], parts[2]];
    ItemKept(parts[0]);
    ItemKept(parts[2]);
    NoItemDropped(parts[1]);
    assert [parts[0]] + [] + [parts[2]] == ["Celta", "Betis"];
  }

  lemma ListItemsThree(x: string, y: string, z: string)
    ensures ListItems([x, y, z]) == OneItem(x) + OneItem(y) + OneItem(z)
  {
    var items := [x, y, z];
    ListItemsCons(items);
    ListItemsCons(items[1..]);
    ListItemsCons(items[2..]);
    assert items[1..][1..] == items[2..] && items[2..][1..] == [];
  }

  lemma ItemKept(w: string)
    requires w == "Celta" || w == "Betis"
    ensures OneItem(w) == [w]
  {
    TrimOfTrimmed(w);
  }

  lemma NoItemDropped(w: string)
    requires w == " no "
    ensures OneItem(w) == []
  {
    TrimSpaced(w, "no");
    assert IsNo("no");
  }

  /** A word between two single spaces trims to the word. */
  lemma TrimSpaced(w: string, core: string)
    requires |core| > 0 && !IsSpace(core[0]) && !IsSpace(core[|core| - 1])
    requires w == " " + core + " "
    ensures Trim(w) == core
  {
    TrimPadded(" ", core, " ");
  }

  lemma ExampleSplit(cell: string)
    requires cell == "Celta; no ;Betis"
    ensures Split(cell, {',', ';'}) == ["Celta", " no ", "Betis"]
  {
    ThreePieces("Celta", " no ", "Betis", ';', {',', ';'});
    assert "Celta" + ([';'] + (" no " + ([';'] + "Betis"))) == cell;
  }

  lemma ThreePieces(a: string, b: string, c: string, sep: char, seps: set<char>)
    requires sep in seps && Avoids(a, seps) && Avoids(b, seps) && Avoids(c, seps)
    ensures Split(a + ([sep] + (b + ([sep] + c))), seps) == [a, b, c]
  {
    var tail := [sep] + c;
    var bc := [sep] + (b + tail);
    SplitWhole(c, seps);
    assert tail[1..] == c;
    SplitCut(b, tail, seps);
    assert bc[1..] == b + tail;
    SplitCut(a, bc, seps);
  }

  /** A match column's entry is the column name for a positive word and the value for a longer text. */
  lemma MatchEntryCases(key: string, value: string)
    requires key != "" && value != ""
    ensures Upper(value) in POSITIVE ==> MatchEntry(key, value) == [key]
    ensures Upper(value) !in POSITIVE && |value| > 2 ==> MatchEntry(key, value) == [value]
    ensures Upper(value) !in POSITIVE && |value| <= 2 ==> MatchEntry(key, value) == []
  {
    assert "NO" !in POSITIVE;
    assert |Upper(value)| == |value|;
  }

  /** A "Jornada ..." column marked with a positive word records the column's name, and one
      holding a longer text records the text. */
  lemma JornadaMarked(key: string, raw: string)
    requires Contains(Lower(key), "jornada")
    requires !ContainsAny(Lower(key), LIST_TERMS) && !ContainsAny(Lower(key), EXCLUDED_TERMS)
    requires CleanValue(raw) != ""
    ensures Upper(CleanValue(raw)) in POSITIVE ==> ColumnEntries(key, Some(raw)) == [key]
    ensures Upper(CleanValue(raw)) !in POSITIVE && |CleanValue(raw)| > 2 ==>
      ColumnEntries(key, Some(raw)) == [CleanValue(raw)]
  {
    assert MATCH_TERMS[5] == "jornada";
    MatchColumnEntries(key, raw);
    MatchEntryCases(key, CleanValue(raw));
  }

  // ---------------------------------------------------------------------------
  // Members

  /** A member's history: the computed list, or the text of a column named exactly `history`
      that the spread writes over it. */
  datatype History = Entries(items: seq<string>) | Text(text: string)

  /** A member: the computed fields, and every column of the row (the spread keeps them all). */
  datatype Member = Member(
    id: string, name: string, phone: string, paid: string, imageUrl: string, history: History,
    columns: Record)

  /** `...row` last in the object literal: a column with the field's exact name wins. */
  function Spread(row: Record, field: string, computed: string): (r: string)
    ensures Get(row, field).Some? ==> r == Get(row, field).value
    ensures Get(row, field).None? ==> r == computed
  {
    match Get(row, field)
    case Some(v) => v
    case None => computed
  }

  /** `paid` before the spread. */
  function PaidFlag(row: Record, keys: seq<string>): (r: string)
    ensures r == "SI" || r == "NO"
    ensures r == "SI" <==> IsPositiveText(Upper(CleanValue(PaymentValue(row, keys))))
    ensures var c := Upper(CleanValue(PaymentValue(row, keys)));
      r == "SI" <==> (|c| > 0 && c[0] in {'S', 'Y', 'T', '1'}) || StartsWithAny(c, LONG_POSITIVE)
  {
    PositiveTextIff(Upper(CleanValue(PaymentValue(row, keys))));
    if IsPaid(row, keys) then "SI" else "NO"
  }

  /** `history` before and after the spread. */
  function HistoryField(row: Record, keys: seq<string>): History {
    match Get(row, "history")
    case Some(text) => Text(text)
    case None => Entries(HistoryFrom(row, keys, []))
  }

  /** The member built from the row at position `index`. */
  function MemberOf(row: Record, index: nat): Member
  {
    var keys := ObjectKeys(row);
    Member(
      Spread(row, "id", OrElse(Get(row, FindKey(keys, ID_TERMS)), "0")),
      Spread(row, "name", OrElse(Get(row, FindKey(keys, NAME_TERMS)), "Desconocido")),
      Spread(row, "phone", OrElse(Get(row, FindKey(keys, PHONE_TERMS)), "")),
      Spread(row, "paid", PaidFlag(row, keys)),
      Spread(row, "imageUrl", ImageUrl(row, keys, index)),
      HistoryField(row, keys),
      row)
  }

  /** The spread keeps every column of the row on the member. The id is never empty without a
      column named exactly `id` (`'0'` stands in), and a column named exactly `id` wins even when
      it is blank; likewise the name is never empty (`'Desconocido'`) without a `name` column. */
  lemma MemberIdentity(row: Record, index: nat)
    requires Valid(row)
    ensures var m := MemberOf(row, index);
      && m.columns == row
      && ("id" !in row.fields ==> m.id != "")
      && ("id" in row.fields ==> m.id == row.fields["id"])
      && ("name" !in row.fields ==> m.name != "")
  {
  }

  /** Surnames taken for the id: `apellidos` contains `id`, the first fragment searched for the
      id. Without a column named exactly `id`, a surname column that comes before every other
      column containing `id` supplies the member's id. */
  lemma SurnameAsId(row: Record, index: nat, i: nat)
    requires Valid(row) && "id" !in row.fields
    requires i < |ObjectKeys(row)| && Contains(Lower(ObjectKeys(row)[i]), "apellidos")
    requires forall j :: 0 <= j < i ==> !KeyMatches(ObjectKeys(row)[j], "id")
    ensures MemberOf(row, index).id == OrElse(Get(row, ObjectKeys(row)[i]), "0")
  {
    SurnameIdKey(ObjectKeys(row), i);
    IdOfKey(row, index, ObjectKeys(row)[i]);
  }

  /** The id search stops at a surname column preceded by no column containing `id`. */
  lemma SurnameIdKey(keys: seq<string>, i: nat)
    requires i < |keys| && Contains(Lower(keys[i]), "apellidos")
    requires forall j :: 0 <= j < i ==> !KeyMatches(keys[j], "id")
    ensures FindKey(keys, ID_TERMS) == keys[i]
  {
    SurnameMatchesId(keys[i]);
    SurnameKeyNonEmpty(keys[i]);
    FirstMatchIndex(keys, "id", i);
    assert ID_TERMS[0] == "id";
  }

  /** Without a column named exactly `id`, the id is the found column's value, or `'0'`. */
  lemma IdOfKey(row: Record, index: nat, key: string)
    requires "id" !in row.fields && FindKey(ObjectKeys(row), ID_TERMS) == key
    ensures MemberOf(row, index).id == OrElse(Get(row, key), "0")
  {
  }

  /** `apellidos` contains `id`. */
  lemma ApellidosContainsId()
    ensures Contains("apellidos", "id")
  {
    assert "apellidos"[5..7] == "id";
    ContainsAt("apellidos", "id", 5);
  }

  lemma SurnameMatchesId(key: string)
    requires Contains(Lower(key), "apellidos")
    ensures KeyMatches(key, "id")
  {
    ApellidosContainsId();
    ContainsTransitive(Lower(key), "apellidos", "id");
    assert Lower("id") == "id";
  }

  /** A key containing `apellidos` is not empty. */
  lemma SurnameKeyNonEmpty(key: string)
    requires Contains(Lower(key), "apellidos")
    ensures key != ""
  {
    ContainsIff(Lower(key), "apellidos");
  }

  /** The key at position `i` matches, and none before it does: `find` returns `i`. */
  lemma FirstMatchIndex(keys: seq<string>, term: string, i: nat)
    requires i < |keys| && KeyMatches(keys[i], term)
    requires forall j :: 0 <= j < i ==> !KeyMatches(keys[j], term)
    ensures FindIndex(keys, term) == Some(i)
  {
  }

  /** A sheet whose surname column comes before its id column takes the surnames as ids. */
  lemma SurnameBeforeIdColumn()
    ensures FindKey(["Apellidos", "ID"], ID_TERMS) == "Apellidos"
  {
    assert Lower("Apellidos") == "apellidos";
    ApellidosContainsId();
    SurnameIdKey(["Apellidos", "ID"], 0);
  }

  /** Without a `paid` column, `paid` is `SI` or `NO`, and `SI` exactly when the cleaned,
      upper-cased payment value starts with a positive word. */
  lemma MemberPaid(row: Record, index: nat)
    requires Valid(row) && "paid" !in row.fields
    ensures var m := MemberOf(row, index);
      && (m.paid == "SI" || m.paid == "NO")
      && (m.paid == "SI" <==> IsPositiveText(Upper(CleanValue(PaymentValue(row, ObjectKeys(row))))))
  {
  }

  /** Without columns named exactly `imageUrl` and `history`, the image is never empty and is the
      image column's value or the positional default, and the history is the scanned list. */
  lemma MemberImageAndHistory(row: Record, index: nat)
    requires Valid(row) && "imageUrl" !in row.fields && "history" !in row.fields
    ensures var m := MemberOf(row, index);
      var keys := ObjectKeys(row);
      var imgKey := FindKey(keys, IMAGE_TERMS);
      && m.imageUrl != ""
      && m.imageUrl == OrElse(if imgKey != "" then Get(row, imgKey) else None, DEFAULT_IMAGES[index % 10])
      && m.history == Entries(HistoryFrom(row, keys, []))
  {
    ImageUrlChoice(row, ObjectKeys(row), index);
  }

  /** A sheet without a payment column marks everyone unpaid. */
  lemma NoPaymentColumn(row: Record, keys: seq<string>)
    requires Valid(row) && forall i :: 0 <= i < |keys| ==> keys[i] in row.order
    requires NoneMatchBefore(keys, PAYMENT_TERMS, |PAYMENT_TERMS|)
    ensures PaymentValue(row, keys) == "NO" && PaidFlag(row, keys) == "NO"
  {
    FindKeyFirst(keys, PAYMENT_TERMS);
    NoIsNotPaid();
  }

  /** The stand-in value `'NO'` survives cleaning and is not a positive word. */
  lemma NoIsNotPaid()
    ensures Upper(CleanValue("NO")) == "NO" && !IsPositiveText("NO")
  {
    CleanNo();
    UpperNo();
    PositiveTextExamples();
  }

  lemma CleanNo()
    ensures CleanValue("NO") == "NO"
  {
    assert Keep("NO", NotQuote) == "NO";
    TrimOfTrimmed("NO");
  }

  lemma UpperNo()
    ensures Upper("NO") == "NO"
  {
    assert UpperChar('N') == 'N' && UpperChar('O') == 'O';
  }

  /** Every row the CSV reader returns is a well-formed object. */
  lemma ParseCsvValid(text: string)
    ensures forall i :: 0 <= i < |ParseCsv(text)| ==> Valid(ParseCsv(text)[i])
  {
    forall i | 0 <= i < |ParseCsv(text)|
      ensures Valid(ParseCsv(text)[i])
    {
      ParseLinesRow(NonBlankLines(text), i);
    }
  }

  /** `fetchMembers()`: `None` stands for a failed request or a non-OK response, which the
      function catches and answers with no members. */
  function FetchMembers(response: Option<string>): (ms: seq<Member>)
    ensures response.None? ==> ms == []
    ensures response.Some? ==> |ms| == |ParseCsv(response.value)|
  {
    match response
    case None => []
    case Some(text) =>
      var rows := ParseCsv(text);
      seq(|rows|, i requires 0 <= i < |rows| => MemberOf(rows[i], i))
  }

  /** Member `i` is built from row `i`, a well-formed object whose position picks its fallback
      image. */
  lemma FetchMembersAt(text: string, i: nat)
    requires i < |ParseCsv(text)|
    ensures Valid(ParseCsv(text)[i])
    ensures FetchMembers(Some(text))[i] == MemberOf(ParseCsv(text)[i], i)
  {
    ParseCsvValid(text);
  }
}
