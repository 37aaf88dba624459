/** The image cascade of CardCanvas.tsx: the list of addresses tried for a pass background (the
    Drive file id, when the address names one, is rewritten to a proxy, a thumbnail and a direct
    export), and the small state machine that moves to the next address when one fails to load.
    `encodeURIComponent` is a function parameter. */
module Cascade {
  import opened Types
  import opened Text

  // ---------------------------------------------------------------------------
  // The Drive file id

  /** The match of `/\/d\/([^/]+)|id=([^&]+)/` starting at position `i`, as its captured id: first
      `/d/` followed by a run of non-`/`, else `id=` followed by a run of non-`&`, both greedy. */
  function DriveIdAt(url: string, i: nat): (r: Option<string>)
    requires i <= |url|
    ensures r.Some? ==> r.value != ""
  {
    if i + 3 < |url| && url[i] == '/' && url[i + 1] == 'd' && url[i + 2] == '/' && url[i + 3] != '/' then
      var rest := url[i + 3..];
      Some(rest[..Span(rest, {'/'})])
    else if i + 3 < |url| && url[i] == 'i' && url[i + 1] == 'd' && url[i + 2] == '=' && url[i + 3] != '&' then
      var rest := url[i + 3..];
      Some(rest[..Span(rest, {'&'})])
    else None
  }

  /** The leftmost match at position `i` or later. */
  function DriveIdFrom(url: string, i: nat): (r: Option<string>)
    requires i <= |url|
    ensures r.Some? ==> r.value != ""
    decreases |url| - i
  {
    if DriveIdAt(url, i).Some? then DriveIdAt(url, i)
    else if i == |url| then None
    else DriveIdFrom(url, i + 1)
  }

  /** The match found is the leftmost one: none starts between `i` and the position it starts at,
      and there is none at all when nothing is found. */
  lemma {:induction false} DriveIdFromLeftmost(url: string, i: nat)
    requires i <= |url|
    ensures DriveIdFrom(url, i).Some? ==>
      exists k :: i <= k <= |url| && DriveIdAt(url, k) == DriveIdFrom(url, i) && NoMatchBetween(url, i, k)
    ensures DriveIdFrom(url, i).None? <==> NoMatchBetween(url, i, |url| + 1)
    decreases |url| - i
  {
    if DriveIdAt(url, i).Some? {
      assert NoMatchBetween(url, i, i);
    } else if i < |url| {
      DriveIdFromLeftmost(url, i + 1);
      if DriveIdFrom(url, i).Some? {
        var k :| i + 1 <= k <= |url| && DriveIdAt(url, k) == DriveIdFrom(url, i + 1) && NoMatchBetween(url, i + 1, k);
        assert NoMatchBetween(url, i, k);
      }
    }
  }

  /** No match starts at a position from `i` up to but not including `k`. */
  ghost predicate NoMatchBetween(url: string, i: nat, k: nat) {
    forall j :: i <= j < k && j <= |url| ==> DriveIdAt(url, j).None?
  }

  /** `imageUrl.match(...)`, reduced to its captured id (`match[1] || match[2]`). */
  function DriveId(url: string): (r: Option<string>)
    ensures r.Some? ==> r.value != ""
  {
    DriveIdFrom(url, 0)
  }

  /** Positions with no match can be skipped. */
  lemma {:induction false} DriveIdSkip(url: string, i: nat, k: nat)
    requires i <= k <= |url|
    requires NoMatchBetween(url, i, k)
    ensures DriveIdFrom(url, i) == DriveIdFrom(url, k)
    decreases k - i
  {
    if i < k {
      DriveIdStep(url, i);
      DriveIdSkip(url, i + 1, k);
    }
  }

  lemma DriveIdStep(url: string, i: nat)
    requires i < |url| && DriveIdAt(url, i).None?
    ensures DriveIdFrom(url, i) == DriveIdFrom(url, i + 1)
  {
  }

  // ---------------------------------------------------------------------------
  // The candidates

  const DRIVE_DIRECT: string := "https://drive.google.com/uc?export=view&id="
  const DRIVE_FILE: string := "https://drive.google.com/file/d/"
  const DRIVE_OPEN: string := "https://drive.google.com/open?id="

  /** The direct export of a Drive file. */
  function DirectLink(id: string): string {
    DRIVE_DIRECT + id
  }

  /** The Drive thumbnail of a file, 1000 pixels wide. */
  function ThumbnailLink(id: string): string {
    "https://drive.google.com/thumbnail?id=" + id + "&sz=w1000"
  }

  /** The image proxy fetching `url`, 800 pixels wide, as WebP. */
  function ProxyLink(url: string, encode: string -> string): string {
    "https://wsrv.nl/?url=" + encode(url) + "&w=800&q=80&output=webp"
  }

  /** `imageCandidates`: nothing for no address; the address and its proxy when it names no Drive
      file; otherwise the proxied direct export, the thumbnail and the direct export. */
  function Candidates(url: string, encode: string -> string): (cs: seq<string>)
    ensures |cs| == 0 <==> url == ""
    ensures |cs| <= 3
  {
    if url == "" then []
    else match DriveId(url)
      case None => [url, ProxyLink(url, encode)]
      case Some(id) => [ProxyLink(DirectLink(id), encode), ThumbnailLink(id), DirectLink(id)]
  }

  /** No match can start at position `j` of `s`, judging from `s`'s own characters. */
  predicate NoMarkerAt(s: string, j: nat)
    requires j + 3 <= |s|
  {
    !(s[j] == '/' && s[j + 1] == 'd' && s[j + 2] == '/') && !(s[j] == 'i' && s[j + 1] == 'd' && s[j + 2] == '=')
  }

  /** A prefix without markers leaves nothing to match before its last three characters. */
  lemma SkipPrefix(p: string, rest: string)
    requires |p| >= 3 && forall j :: 0 <= j < |p| - 3 ==> NoMarkerAt(p, j)
    ensures DriveId(p + rest) == DriveIdFrom(p + rest, |p| - 3)
  {
    var url := p + rest;
    forall j | 0 <= j < |p| - 3
      ensures DriveIdAt(url, j).None?
    {
      assert NoMarkerAt(p, j);
      assert url[j] == p[j] && url[j + 1] == p[j + 1] && url[j + 2] == p[j + 2];
    }
    DriveIdSkip(url, 0, |p| - 3);
  }

  lemma DirectHasNoMarker()
    ensures forall j :: 0 <= j < |DRIVE_DIRECT| - 3 ==> NoMarkerAt(DRIVE_DIRECT, j)
  {
  }

  lemma FileHasNoMarker()
    ensures forall j :: 0 <= j < |DRIVE_FILE| - 3 ==> NoMarkerAt(DRIVE_FILE, j)
  {
  }

  /** The direct export link of a file carries the file's id back: the last candidate of a Drive
      image names the same file. */
  lemma DriveIdOfDirectLink(id: string)
    requires id != "" && Avoids(id, {'&'})
    ensures DriveId(DirectLink(id)) == Some(id)
  {
    var url := DirectLink(id);
    DirectHasNoMarker();
    SkipPrefix(DRIVE_DIRECT, id);
    var p := |DRIVE_DIRECT| - 3;
    assert url[p..p + 3] == "id=";
    var rest := url[p + 3..];
    assert rest == id;
    SpanUpTo(id, "", {'&'});
    assert id + "" == id;
  }

  /** The id of a Drive sharing link (`.../file/d/<id>/...`) is the file id. */
  lemma DriveIdOfFileLink(id: string, tail: string)
    requires id != "" && Avoids(id, {'/'})
    ensures DriveId(DRIVE_FILE + id + "/" + tail) == Some(id)
  {
    var url := DRIVE_FILE + id + "/" + tail;
    assert url == DRIVE_FILE + (id + ("/" + tail));
    FileHasNoMarker();
    SkipPrefix(DRIVE_FILE, id + ("/" + tail));
    var p := |DRIVE_FILE| - 3;
    assert url[p..p + 3] == "/d/";
    var rest := url[p + 3..];
    assert rest == id + ("/" + tail);
    SpanUpTo(id, "/" + tail, {'/'});
  }

  lemma OpenHasNoMarker()
    ensures forall j :: 0 <= j < |DRIVE_OPEN| - 3 ==> NoMarkerAt(DRIVE_OPEN, j)
  {
  }

  /** The id of a Drive `open?id=` link is the file id, which stops at the next `&`. */
  lemma DriveIdOfOpenLink(id: string, tail: string)
    requires id != "" && Avoids(id, {'&'})
    ensures DriveId(DRIVE_OPEN + id + "&" + tail) == Some(id)
  {
    var url := DRIVE_OPEN + id + "&" + tail;
    assert url == DRIVE_OPEN + (id + ("&" + tail));
    OpenHasNoMarker();
    SkipPrefix(DRIVE_OPEN, id + ("&" + tail));
    var p := |DRIVE_OPEN| - 3;
    assert url[p..p + 3] == "id=";
    var rest := url[p + 3..];
    assert rest == id + ("&" + tail);
    SpanUpTo(id, "&" + tail, {'&'});
  }

  /** A Drive sharing link is tried through the proxy, the thumbnail and the direct export of the
      same file, and the direct export names that file again. */
  lemma CandidatesOfFileLink(id: string, tail: string, encode: string -> string)
    requires id != "" && Avoids(id, {'/', '&'})
    ensures Candidates(DRIVE_FILE + id + "/" + tail, encode) ==
      [ProxyLink(DirectLink(id), encode), ThumbnailLink(id), DirectLink(id)]
    ensures DriveId(Candidates(DRIVE_FILE + id + "/" + tail, encode)[2]) == Some(id)
  {
    DriveIdOfFileLink(id, tail);
    DriveIdOfDirectLink(id);
  }

  /** An address that names no Drive file is tried as it is first, then through the proxy. */
  lemma CandidatesOfPlainUrl(url: string, encode: string -> string)
    requires url != "" && DriveId(url).None?
    ensures Candidates(url, encode)[0] == url && |Candidates(url, encode)| == 2
    ensures Candidates(url, encode)[1] == ProxyLink(url, encode)
  {
  }

  // ---------------------------------------------------------------------------
  // The cascade

  datatype ImageState = Loading | Success | Error

  /** The component's image state and the index of the candidate being tried. */
  datatype Card = Card(state: ImageState, index: nat)

  /** `useState`: loading the first candidate. */
  const INITIAL: Card := Card(Loading, 0)

  /** The effect run when the address changes: start over at the first candidate, or show the
      fallback when there is no address (the index is left as it was). */
  function Reset(c: Card, url: string): (r: Card)
    ensures url != "" ==> r == INITIAL
    ensures url == "" ==> r.state == Error && r.index == c.index
  {
    if url != "" then Card(Loading, 0) else c.(state := Error)
  }

  /** `handleImageError` with `n` candidates: try the next candidate while there is one, otherwise
      show the fallback. */
  function OnError(c: Card, n: nat): (r: Card)
    ensures r.index == c.index || r.index == c.index + 1
    ensures r.index < n || r.index == c.index
    ensures c.index + 1 < n ==> r.index == c.index + 1 && r.state == c.state
    ensures c.index + 1 >= n ==> r.index == c.index && r.state == Error
  {
    if c.index < n - 1 then c.(index := c.index + 1) else c.(state := Error)
  }

  /** `handleImageLoad`. */
  function OnLoad(c: Card): (r: Card)
    ensures r.state == Success && r.index == c.index
  {
    c.(state := Success)
  }

  /** `currentSrc`: the candidate being tried, `None` past the end (`undefined`, no image shown). */
  function CurrentSource(cs: seq<string>, c: Card): (r: Option<string>)
    ensures r.Some? <==> c.index < |cs|
    ensures r.Some? ==> r.value in cs
  {
    if c.index < |cs| then Some(cs[c.index]) else None
  }

  /** What the image element reports. */
  datatype Event = Failed | Loaded

  /** The card after the events `evs`, with `n` candidates. */
  function Run(c: Card, n: nat, evs: seq<Event>): Card
    decreases |evs|
  {
    if |evs| == 0 then c
    else Run(if evs[0] == Failed then OnError(c, n) else OnLoad(c), n, evs[1..])
  }

  /** `k` failures in a row. */
  function Failures(k: nat): (evs: seq<Event>)
    ensures |evs| == k && forall i :: 0 <= i < k ==> evs[i] == Failed
  {
    if k == 0 then [] else [Failed] + Failures(k - 1)
  }

  /** Whatever the image element reports, the index stays on an existing candidate, so an image
      is always being tried. */
  lemma {:induction false} RunInRange(c: Card, n: nat, evs: seq<Event>)
    requires c.index < n
    ensures Run(c, n, evs).index < n
    decreases |evs|
  {
    if |evs| > 0 {
      var next := if evs[0] == Failed then OnError(c, n) else OnLoad(c);
      RunInRange(next, n, evs[1..]);
    }
  }

  /** After `k` failures the `k`-th candidate is being tried, still loading, as long as there is
      one; once the last candidate has failed the fallback is shown, on the last candidate. */
  lemma {:induction false} FailuresWalkCandidates(n: nat, k: nat)
    requires n > 0
    ensures k < n ==> Run(INITIAL, n, Failures(k)) == Card(Loading, k)
    ensures k >= n ==> Run(INITIAL, n, Failures(k)) == Card(Error, n - 1)
  {
    if k > 0 {
      FailuresWalkCandidates(n, k - 1);
      FailuresStep(INITIAL, n, k - 1);
      var before := Run(INITIAL, n, Failures(k - 1));
      if k - 1 < n {
        assert before == Card(Loading, k - 1);
      } else {
        assert before == Card(Error, n - 1);
      }
    }
  }

  /** One more failure after `k` failures. */
  lemma {:induction false} FailuresStep(c: Card, n: nat, k: nat)
    ensures Run(c, n, Failures(k + 1)) == OnError(Run(c, n, Failures(k)), n)
    decreases k
  {
    var evs := Failures(k + 1);
    assert evs[1..] == Failures(k);
    if k > 0 {
      FailuresStep(OnError(c, n), n, k - 1);
      assert Failures(k)[1..] == Failures(k - 1);
    }
  }

  /** A card whose `k`-th candidate loads shows that candidate: the loaded image is the first one
      that did not fail. */
  lemma LoadAfterFailures(url: string, encode: string -> string, k: nat)
    requires url != "" && k < |Candidates(url, encode)|
    ensures var c := OnLoad(Run(Reset(INITIAL, url), |Candidates(url, encode)|, Failures(k)));
      c.state == Success && CurrentSource(Candidates(url, encode), c) == Some(Candidates(url, encode)[k])
  {
    FailuresWalkCandidates(|Candidates(url, encode)|, k);
  }
}
