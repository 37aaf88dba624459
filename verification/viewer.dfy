/** The public pass viewer of App.tsx (`SecureViewer`) and the router that picks it: the pass
    link's fragment is read back into its parameters, and the viewer decides between an invalid
    link, an expired pass, an unknown member and a verified pass. The clock, the roster download
    and the form decoding of `URLSearchParams` are parameters. */
module Viewer {
  import opened Types
  import opened Text
  import Numbers
  import opened Utils
  import opened Roster
  import opened Dashboard

  // ---------------------------------------------------------------------------
  // Reading the address

  /** `location.hash` of the address `href`: `#` and everything after the first `#`, or `''`
      when the address has no fragment or an empty one. */
  function HashOf(href: string): (h: string)
    ensures h == "" || h[0] == '#'
  {
    var k := Span(href, {'#'});
    if k + 1 >= |href| then "" else href[k..]
  }

  /** `hash.split('?')[1]`; `None` is `undefined`, which the parameters constructor reads as no
      parameters at all. */
  function QueryOf(hash: string): Option<string> {
    var parts := Split(hash, {'?'});
    if |parts| >= 2 then Some(parts[1]) else None
  }

  /** One `name=value` piece of a query: split at the first `=` (no `=` means an empty value),
      both halves decoded. */
  function ParsePair(piece: string, decode: string -> string): (string, string) {
    var k := Span(piece, {'='});
    if k == |piece| then (decode(piece), "") else (decode(piece[..k]), decode(piece[k + 1..]))
  }

  /** The pieces of a query between `&`s, empty pieces skipped, each parsed as a pair. */
  function ParsePieces(pieces: seq<string>, decode: string -> string): (ps: seq<(string, string)>)
    ensures |ps| <= |pieces|
  {
    if |pieces| == 0 then []
    else if pieces[0] == "" then ParsePieces(pieces[1..], decode)
    else [ParsePair(pieces[0], decode)] + ParsePieces(pieces[1..], decode)
  }

  /** `new URLSearchParams(queryString)`. */
  function ParseQuery(query: Option<string>, decode: string -> string): seq<(string, string)> {
    if query.None? then [] else ParsePieces(Split(query.value, {'&'}), decode)
  }

  /** `params.get(name)`: the value of the first pair with that name. */
  function GetParam(ps: seq<(string, string)>, name: string): (r: Option<string>)
    ensures r.Some? ==> exists i :: 0 <= i < |ps| && ps[i] == (name, r.value) && NoneNamedBefore(ps, name, i)
    ensures r.None? ==> forall i :: 0 <= i < |ps| ==> ps[i].0 != name
  {
    if |ps| == 0 then None
    else if ps[0].0 == name then Some(ps[0].1)
    else GetParam(ps[1..], name)
  }

  // ---------------------------------------------------------------------------
  // The decision

  /** What the viewer ends up showing. */
  datatype Screen =
    | InvalidLink           // no member id in the link
    | Expired               // the pass is more than 96 hours old
    | NotFound              // no member of the roster has that id
    | Verified(member: Member, imageUrl: string)

  /** The viewer's rule: expired when `now` is past the reference time plus 96 hours. A reference
      time that is not a number (`NaN`, `None`) never expires. */
  predicate ExpiredAt(now: int, ts: Option<int>) {
    ts.Some? && now > ts.value + 96 * 60 * 60 * 1000
  }

  /** The viewer's 96-hour rule is the four-day window of `getExpirationDate`/`isExpired`. */
  lemma ExpiredAtIsExpired(now: int, ts: Option<int>)
    ensures ExpiredAt(now, ts) <==> ts.Some? && IsExpired(now, Some(ExpirationDate(ts.value)))
  {
  }

  /** No pair before position `i` has the name. */
  predicate NoneNamedBefore(ps: seq<(string, string)>, name: string, i: nat)
    requires i <= |ps|
  {
    forall j :: 0 <= j < i ==> ps[j].0 != name
  }

  /** No member before position `i` has the id. */
  predicate NoneWithIdBefore(members: seq<Member>, id: string, i: nat)
    requires i <= |members|
  {
    forall j :: 0 <= j < i ==> members[j].id != id
  }

  /** `allMembers.find(m => m.id === id)`: the first member with that id. */
  function FindMember(members: seq<Member>, id: string): (r: Option<Member>)
    ensures r.Some? ==>
      exists i :: 0 <= i < |members| && members[i] == r.value && r.value.id == id && NoneWithIdBefore(members, id, i)
    ensures r.None? ==> forall i :: 0 <= i < |members| ==> members[i].id != id
  {
    if |members| == 0 then None
    else if members[0].id == id then Some(members[0])
    else FindMember(members[1..], id)
  }

  /** The image a `slot` parameter forces: that of the pass with that number, if any. */
  function ForcedImage(slot: Option<string>): (r: Option<string>)
    ensures r.Some? ==> r.value in DEFAULT_IMAGES
  {
    if slot.None? || slot.value == "" then None
    else
      var n := Numbers.ParseInt(slot.value);
      if n.None? then None
      else match FindSlotIn(PASS_SLOTS, n.value)
        case None => None
        case Some(p) =>
          PassImageIsDefault(p);
          Some(p.imageUrl)
  }

  /** Every pass shows one of the ten pass images. */
  lemma PassImageIsDefault(p: PassSlot)
    requires p in PASS_SLOTS
    ensures p.imageUrl in DEFAULT_IMAGES
  {
    SlotsNumbered();
    var j :| 0 <= j < |PASS_SLOTS| && PASS_SLOTS[j] == p;
  }

  /** The `t` parameter makes the pass expired: it is present, not empty, and a reference time
      more than 96 hours before `now` (a `t` that is not a number never expires). */
  predicate ExpiredParam(now: int, t: Option<string>) {
    t.Some? && t.value != "" && ExpiredAt(now, Numbers.ParseInt(t.value))
  }

  /** `SecureViewer` on the `id`, `t` and `slot` parameters of its address, at time `now`, with
      `members` the downloaded roster (a failed download gives no members). */
  function DecideOn(id: Option<string>, t: Option<string>, slot: Option<string>, now: int, members: seq<Member>): Screen {
    if id.None? || id.value == "" then InvalidLink
    else if ExpiredParam(now, t) then Expired
    else
      var forced := ForcedImage(slot);
      match FindMember(members, id.value)
      case None => NotFound
      case Some(m) => Verified(m, if forced.Some? && forced.value != "" then forced.value else m.imageUrl)
  }

  /** `SecureViewer` at the address `href`. */
  function Decide(href: string, now: int, members: seq<Member>, decode: string -> string): Screen {
    var ps := ParseQuery(QueryOf(HashOf(href)), decode);
    DecideOn(GetParam(ps, "id"), GetParam(ps, "t"), GetParam(ps, "slot"), now, members)
  }

  /** A verified pass shows the member with the link's id, and either that member's image or one
      of the ten pass backgrounds. */
  lemma DecideVerified(href: string, now: int, members: seq<Member>, decode: string -> string)
    ensures var s := Decide(href, now, members, decode);
      s.Verified? ==> s.member in members && (s.imageUrl == s.member.imageUrl || s.imageUrl in DEFAULT_IMAGES)
  {
    var ps := ParseQuery(QueryOf(HashOf(href)), decode);
    DecideOnVerified(GetParam(ps, "id"), GetParam(ps, "t"), GetParam(ps, "slot"), now, members);
  }

  lemma DecideOnVerified(id: Option<string>, t: Option<string>, slot: Option<string>, now: int, members: seq<Member>)
    ensures var s := DecideOn(id, t, slot, now, members);
      s.Verified? ==> s.member in members && (s.imageUrl == s.member.imageUrl || s.imageUrl in DEFAULT_IMAGES)
  {
  }

  /** `App`: the viewer when the fragment mentions `/view`, the dashboard otherwise. */
  predicate RoutesToViewer(href: string) {
    Contains(HashOf(href), "/view")
  }

  // ---------------------------------------------------------------------------
  // From the link to the decision

  /** What the link's encoding must do for links to read back: decoding undoes encoding, and an
      encoded text has none of the characters that structure the address. */
  ghost predicate GoodEncoding(encode: string -> string, decode: string -> string) {
    forall s :: decode(encode(s)) == s && Avoids(encode(s), {'&', '=', '#', '?'})
  }

  /** The fragment of a pass link is the view route followed by the serialised parameters. */
  lemma HashOfPassLink(base: string, q: string)
    requires Avoids(base, {'#'})
    ensures HashOf(base + "#/view?" + q) == "#/view?" + q
  {
    var link := base + "#/view?" + q;
    assert link == base + ("#/view?" + q);
    SpanUpTo(base, "#/view?" + q, {'#'});
    assert link[|base|..] == "#/view?" + q;
  }

  /** Reading the query out of the fragment gives back the serialised parameters. */
  lemma QueryOfPassLink(q: string)
    requires Avoids(q, {'?'})
    ensures QueryOf("#/view?" + q) == Some(q)
  {
    assert "#/view?" + q == "#/view" + ("?" + q);
    SplitPiece("#/view", '?', "?" + q);
    assert ("?" + q)[1..] == q;
    SplitPiece(q, '?', "");
    assert q + "" == q;
  }

  /** One encoded pair parses back to the pair. */
  lemma ParsePairOfEncoded(p: (string, string), encode: string -> string, decode: string -> string)
    requires GoodEncoding(encode, decode)
    ensures ParsePair(encode(p.0) + "=" + encode(p.1), decode) == p
  {
    var n := encode(p.0);
    var v := encode(p.1);
    var piece := n + "=" + v;
    assert decode(n) == p.0 && decode(v) == p.1 && Avoids(n, {'&', '=', '#', '?'});
    assert piece == n + ("=" + v);
    SpanUpTo(n, "=" + v, {'='});
    assert piece[..|n|] == n;
    assert piece[|n| + 1..] == v;
  }

  /** The encoded pairs parse back to the pairs. */
  lemma {:induction false} ParsePiecesOfEncoded(ps: seq<(string, string)>, encode: string -> string, decode: string -> string)
    requires GoodEncoding(encode, decode)
    ensures ParsePieces(EncodePairs(ps, encode), decode) == ps
    decreases |ps|
  {
    if |ps| > 0 {
      ParsePiecesOfEncoded(ps[1..], encode, decode);
      ParsePairOfEncoded(ps[0], encode, decode);
      var pieces := EncodePairs(ps, encode);
      assert pieces[0] != "";
      assert pieces[1..] == EncodePairs(ps[1..], encode);
    }
  }

  /** Every encoded pair avoids the characters that separate pairs and address parts. */
  lemma {:induction false} EncodePairsAvoid(ps: seq<(string, string)>, encode: string -> string, decode: string -> string)
    requires GoodEncoding(encode, decode)
    ensures forall i :: 0 <= i < |EncodePairs(ps, encode)| ==> Avoids(EncodePairs(ps, encode)[i], {'&', '?'})
    decreases |ps|
  {
    if |ps| > 0 {
      EncodePairsAvoid(ps[1..], encode, decode);
      var n := encode(ps[0].0);
      var v := encode(ps[0].1);
      assert Avoids(n, {'&', '=', '#', '?'}) && Avoids(v, {'&', '=', '#', '?'});
      var piece := n + "=" + v;
      assert Avoids(piece, {'&', '?'}) by {
        forall i | 0 <= i < |piece|
          ensures piece[i] !in {'&', '?'}
        {
          if i < |n| {
            assert piece[i] == n[i];
          } else if i > |n| {
            assert piece[i] == v[i - |n| - 1];
          }
        }
      }
    }
  }

  /** The viewer reads back exactly the parameters the dashboard put in the link. */
  lemma ParamsOfPassLink(href: string, id: string, ts: Option<int>, slot: Option<int>,
                         encode: string -> string, decode: string -> string)
    requires GoodEncoding(encode, decode)
    ensures ParseQuery(QueryOf(HashOf(PassLink(href, id, ts, slot, encode))), decode) == LinkParams(id, ts, slot)
  {
    var ps := LinkParams(id, ts, slot);
    var pieces := EncodePairs(ps, encode);
    var q := Serialize(ps, encode);
    EncodePairsAvoid(ps, encode, decode);
    JoinAvoids(pieces, "&", {'?'});
    HashOfPassLink(BaseUrl(href), q);
    QueryOfPassLink(q);
    forall i | 0 <= i < |pieces|
      ensures Avoids(pieces[i], {'&'})
    {
    }
    SplitJoin(pieces, '&');
    ParsePiecesOfEncoded(ps, encode, decode);
  }

  /** The parameters of a pass link, looked up by name. */
  lemma LinkParamsLookup(id: string, ts: Option<int>, slot: Option<int>)
    ensures GetParam(LinkParams(id, ts, slot), "id") == Some(id)
    ensures GetParam(LinkParams(id, ts, slot), "t") ==
      (if Truthy(ts) then Some(Numbers.IntToString(ts.value)) else None)
    ensures GetParam(LinkParams(id, ts, slot), "slot") ==
      (if Truthy(slot) then Some(Numbers.IntToString(slot.value)) else None)
  {
    var ps := LinkParams(id, ts, slot);
    var t := if Truthy(ts) then [("t", Numbers.IntToString(ts.value))] else [];
    var sl := if Truthy(slot) then [("slot", Numbers.IntToString(slot.value))] else [];
    assert ps == [("id", id)] + t + sl;
    assert ps[1..] == t + sl;
    assert GetParam(ps, "slot") == GetParam(ps[1..], "slot");
    if Truthy(ts) {
      assert ps[1..][1..] == sl;
      assert GetParam(ps[1..], "slot") == GetParam(ps[1..][1..], "slot");
    }
  }

  /** A number written by the link is forced as a pass image exactly when it is a pass number. */
  lemma ForcedImageOfNumber(slot: Option<int>)
    ensures ForcedImage(if Truthy(slot) then Some(Numbers.IntToString(slot.value)) else None) ==
      (if Truthy(slot) && 1 <= slot.value <= 10 then Some(DEFAULT_IMAGES[slot.value - 1]) else None)
  {
    if Truthy(slot) {
      Numbers.ParseIntOfIntToString(slot.value);
      FindSlotIff(slot.value);
      SlotsNumbered();
    }
  }

  /** End to end: the viewer opened on a link the dashboard made shows an invalid link exactly
      when the member's id is empty, an expired pass exactly when a non-zero reference time is
      more than 96 hours old, and otherwise the first member with that id (or "not found"), on
      the background of the link's pass when it names one of the ten. */
  lemma PassLinkDecision(href: string, id: string, ts: Option<int>, slot: Option<int>,
                         now: int, members: seq<Member>, encode: string -> string, decode: string -> string)
    requires GoodEncoding(encode, decode)
    ensures Decide(PassLink(href, id, ts, slot, encode), now, members, decode) ==
      if id == "" then InvalidLink
      else if Truthy(ts) && now > ts.value + EXPIRY_MS then Expired
      else match FindMember(members, id)
        case None => NotFound
        case Some(m) => Verified(m, if Truthy(slot) && 1 <= slot.value <= 10 then DEFAULT_IMAGES[slot.value - 1] else m.imageUrl)
  {
    ParamsOfPassLink(href, id, ts, slot, encode, decode);
    LinkParamsLookup(id, ts, slot);
    DecideOnLinkParams(id, ts, slot, now, members);
  }

  /** The decision on the parameter values a pass link carries. */
  lemma DecideOnLinkParams(id: string, ts: Option<int>, slot: Option<int>, now: int, members: seq<Member>)
    ensures DecideOn(Some(id),
                     if Truthy(ts) then Some(Numbers.IntToString(ts.value)) else None,
                     if Truthy(slot) then Some(Numbers.IntToString(slot.value)) else None,
                     now, members) ==
      if id == "" then InvalidLink
      else if Truthy(ts) && now > ts.value + EXPIRY_MS then Expired
      else match FindMember(members, id)
        case None => NotFound
        case Some(m) => Verified(m, if Truthy(slot) && 1 <= slot.value <= 10 then DEFAULT_IMAGES[slot.value - 1] else m.imageUrl)
  {
    ExpiredParamOfNumber(now, ts);
    ForcedImageOfNumber(slot);
    if Truthy(slot) && 1 <= slot.value <= 10 {
      DefaultImagesNonEmpty();
    }
  }

  /** The `t` a pass link carries expires the pass exactly when the reference time is non-zero and
      more than 96 hours old. */
  lemma ExpiredParamOfNumber(now: int, ts: Option<int>)
    ensures ExpiredParam(now, if Truthy(ts) then Some(Numbers.IntToString(ts.value)) else None) <==>
      Truthy(ts) && now > ts.value + EXPIRY_MS
  {
    if Truthy(ts) {
      Numbers.ParseIntOfIntToString(ts.value);
    }
  }

  /** A pass link opens the viewer. */
  lemma PassLinkRoutesToViewer(href: string, id: string, ts: Option<int>, slot: Option<int>, encode: string -> string)
    ensures RoutesToViewer(PassLink(href, id, ts, slot, encode))
  {
    var q := Serialize(LinkParams(id, ts, slot), encode);
    HashOfPassLink(BaseUrl(href), q);
    assert ("#/view?" + q)[1..6] == "/view";
    ContainsAt("#/view?" + q, "/view", 1);
  }
}
