/** The administrator's dashboard of App.tsx: the ten fixed passes, the greeting name, the pass
    link, the assignment of members to passes, the member search and the full reset. The page
    address, the clock, the browser's storage and the form encoding of `URLSearchParams` are
    parameters or fields of the state. */
module Dashboard {
  import opened Types
  import opened Text
  import Numbers
  import opened Roster

  // ---------------------------------------------------------------------------
  // The ten passes

  /** One season ticket: its number, its row and seat, and its background image. */
  datatype PassSlot = PassSlot(slotId: int, seatInfo: string, imageUrl: string)

  const PASS_SLOTS: seq<PassSlot> := [
    PassSlot(1, "F:10 A:89", DEFAULT_IMAGES[0]),
    PassSlot(2, "F:9 A:79", DEFAULT_IMAGES[1]),
    PassSlot(3, "F:9 A:91", DEFAULT_IMAGES[2]),
    PassSlot(4, "F:9 A:93", DEFAULT_IMAGES[3]),
    PassSlot(5, "F:8 A:79", DEFAULT_IMAGES[4]),
    PassSlot(6, "F:8 A:81", DEFAULT_IMAGES[5]),
    PassSlot(7, "F:8 A:83", DEFAULT_IMAGES[6]),
    PassSlot(8, "F:8 A:89", DEFAULT_IMAGES[7]),
    PassSlot(9, "F:6 A:123", DEFAULT_IMAGES[8]),
    PassSlot(10, "F:6 A:125", DEFAULT_IMAGES[9])
  ]

  /** `slots.find(s => s.slotId === id)`. */
  function FindSlotIn(slots: seq<PassSlot>, id: int): (r: Option<PassSlot>)
    ensures r.Some? ==> r.value in slots && r.value.slotId == id
    ensures r.None? ==> forall i :: 0 <= i < |slots| ==> slots[i].slotId != id
  {
    if |slots| == 0 then None
    else if slots[0].slotId == id then Some(slots[0])
    else FindSlotIn(slots[1..], id)
  }

  /** The passes are numbered 1 to 10 in order, and pass `k` shows the `k`-th default image. */
  lemma SlotsNumbered()
    ensures |PASS_SLOTS| == 10
    ensures forall i :: 0 <= i < |PASS_SLOTS| ==>
      PASS_SLOTS[i].slotId == i + 1 && PASS_SLOTS[i].imageUrl == DEFAULT_IMAGES[i]
  {
  }

  /** A pass number is found exactly when it is between 1 and 10, and then it is that pass. */
  lemma FindSlotIff(id: int)
    ensures FindSlotIn(PASS_SLOTS, id).Some? <==> 1 <= id <= 10
    ensures 1 <= id <= 10 ==> FindSlotIn(PASS_SLOTS, id) == Some(PASS_SLOTS[id - 1])
  {
    SlotsNumbered();
    if 1 <= id <= 10 {
      assert PASS_SLOTS[id - 1].slotId == id;
      var s := FindSlotIn(PASS_SLOTS, id).value;
      var j :| 0 <= j < |PASS_SLOTS| && PASS_SLOTS[j] == s;
    }
  }

  // ---------------------------------------------------------------------------
  // The greeting name

  /** `getFirstName(fullName)`. Names are written surname first: after a comma the given name
      follows; without one the first two words are the two surnames when there are three or more
      words, the first word is the surname when there are two, and a single word is kept. The
      result is title-cased; an empty name gives `'Socio'`. */
  function FirstName(fullName: string): string {
    if fullName == "" then "Socio"
    else
      var clean := Trim(fullName);
      if Contains(clean, ",") then
        ContainsChar(clean, ',');
        SplitAtLeastTwo(clean, {','});
        TitleCase(Trim(Split(clean, {','})[1]))
      else
        var words := SplitSpaces(clean);
        if |words| >= 3 then TitleCase(Join(words[2..], " "))
        else if |words| == 2 then TitleCase(words[1])
        else TitleCase(words[0])
  }

  /** The greeting is always title-cased: each word starts upper-case and goes on lower-case. */
  lemma FirstNameTitleCased(fullName: string)
    ensures IsTitleCased(FirstName(fullName))
  {
    if fullName == "" {
      assert TitleCase("Socio") == "Socio";
    } else {
      var clean := Trim(fullName);
      if Contains(clean, ",") {
        ContainsChar(clean, ',');
        SplitAtLeastTwo(clean, {','});
        TitleCaseIsTitleCased(Trim(Split(clean, {','})[1]));
      } else {
        var words := SplitSpaces(clean);
        if |words| >= 3 {
          TitleCaseIsTitleCased(Join(words[2..], " "));
        } else if |words| == 2 {
          TitleCaseIsTitleCased(words[1]);
        } else {
          TitleCaseIsTitleCased(words[0]);
        }
      }
    }
  }

  lemma {:induction false} JoinEndsWithWord(words: seq<string>)
    requires |words| >= 1 && IsWord(words[|words| - 1])
    ensures var s := Join(words, " "); |s| > 0 && s[|s| - 1] == words[|words| - 1][|words[|words| - 1]| - 1]
    decreases |words|
  {
    if |words| > 1 {
      JoinEndsWithWord(words[1..]);
      assert words[1..][|words[1..]| - 1] == words[|words| - 1];
    }
  }

  /** A name written as words separated by single spaces, without commas: three or more words
      greet by everything after the two surnames, two words by the second, one word by itself. */
  lemma FirstNameOfWords(words: seq<string>)
    requires |words| >= 1
    requires forall i :: 0 <= i < |words| ==> IsWord(words[i]) && Avoids(words[i], {','})
    ensures FirstName(Join(words, " ")) ==
      TitleCase(if |words| >= 3 then Join(words[2..], " ") else if |words| == 2 then words[1] else words[0])
  {
    var s := Join(words, " ");
    JoinStartsWithWord(words);
    JoinEndsWithWord(words);
    TrimOfTrimmed(s);
    JoinAvoids(words, " ", {','});
    ContainsChar(s, ',');
    SplitSpacesJoin(words);
  }

  /** A name written `surnames, given name`: the greeting is the piece after the first comma. */
  lemma FirstNameWithComma(parts: seq<string>)
    requires |parts| >= 2
    requires forall i :: 0 <= i < |parts| ==> Avoids(parts[i], {','})
    requires Join(parts, ",") != "" && IsTrimmed(Join(parts, ","))
    ensures FirstName(Join(parts, ",")) == TitleCase(Trim(parts[1]))
  {
    var s := Join(parts, ",");
    TrimOfTrimmed(s);
    SplitJoin(parts, ',');
    assert s == parts[0] + "," + Join(parts[1..], ",");
    assert s[|parts[0]|] == ',';
    ContainsChar(s, ',');
  }

  /** An empty name greets the member as `Socio`. */
  lemma FirstNameOfEmpty()
    ensures FirstName("") == "Socio"
  {
  }

  /** A name of only whitespace is not empty, so it does not get `'Socio'`: it gets an empty greeting. */
  lemma FirstNameOfBlank(fullName: string)
    requires fullName != "" && AllSpace(fullName)
    ensures FirstName(fullName) == ""
  {
    TrimStartOfSpace(fullName);
    assert !Contains("", ",");
  }

  // ---------------------------------------------------------------------------
  // The pass link

  /** `href.split('#')[0].split('?')[0]`: the page address without fragment and query. */
  function BaseUrl(href: string): (r: string)
    ensures Avoids(r, {'#'}) && Avoids(r, {'?'})
    ensures r <= href && (|r| == |href| || href[|r|] in {'#', '?'})
  {
    var beforeHash := Split(href, {'#'})[0];
    SplitAvoids(beforeHash, {'?'}, {'#'});
    SplitAtSpan(href, {'#'});
    SplitAtSpan(beforeHash, {'?'});
    Split(beforeHash, {'?'})[0]
  }

  /** JavaScript truthiness of an optional number: absent, `NaN` and `0` are false. */
  predicate Truthy(n: Option<int>) {
    n.Some? && n.value != 0
  }

  /** The parameters `generateLinkForMember` sets, in order: `id`, then `t` and `slot` when truthy. */
  function LinkParams(id: string, ts: Option<int>, slot: Option<int>): (ps: seq<(string, string)>)
    ensures 1 <= |ps| <= 3 && ps[0] == ("id", id)
    ensures Truthy(ts) <==> exists i :: 0 <= i < |ps| && ps[i].0 == "t"
    ensures forall i :: 0 <= i < |ps| && ps[i].0 == "t" ==> ts.Some? && ps[i].1 == Numbers.IntToString(ts.value)
    ensures Truthy(slot) <==> exists i :: 0 <= i < |ps| && ps[i].0 == "slot"
    ensures forall i :: 0 <= i < |ps| && ps[i].0 == "slot" ==> slot.Some? && ps[i].1 == Numbers.IntToString(slot.value)
  {
    var withT := [("id", id)] + (if Truthy(ts) then [("t", Numbers.IntToString(ts.value))] else []);
    var ps := withT + (if Truthy(slot) then [("slot", Numbers.IntToString(slot.value))] else []);
    assert Truthy(ts) ==> ps[1].0 == "t";
    assert Truthy(slot) ==> ps[|ps| - 1].0 == "slot";
    ps
  }

  /** Each pair as `name=value`, both form-encoded by `encode`. */
  function EncodePairs(ps: seq<(string, string)>, encode: string -> string): (r: seq<string>)
    ensures |r| == |ps|
  {
    if |ps| == 0 then [] else [encode(ps[0].0) + "=" + encode(ps[0].1)] + EncodePairs(ps[1..], encode)
  }

  /** `URLSearchParams.prototype.toString`. */
  function Serialize(ps: seq<(string, string)>, encode: string -> string): string {
    Join(EncodePairs(ps, encode), "&")
  }

  /** `generateLinkForMember(member, referenceTimestamp, slotId)` on the page at `href`. The
      reference time is absent or `NaN` as `None`. */
  function PassLink(href: string, id: string, ts: Option<int>, slot: Option<int>, encode: string -> string): string {
    BaseUrl(href) + "#/view?" + Serialize(LinkParams(id, ts, slot), encode)
  }

  /** The base address of a pass link is the base address of the page that made it: copying a
      link while looking at another pass link gives the same address. */
  lemma BaseUrlOfPassLink(href: string, id: string, ts: Option<int>, slot: Option<int>, encode: string -> string)
    ensures BaseUrl(PassLink(href, id, ts, slot, encode)) == BaseUrl(href)
  {
    var base := BaseUrl(href);
    var rest := "/view?" + Serialize(LinkParams(id, ts, slot), encode);
    assert PassLink(href, id, ts, slot, encode) == base + ("#" + rest);
    SplitPiece(base, '#', "#" + rest);
    SplitPiece(base, '?', "");
    assert base + "" == base;
  }

  // ---------------------------------------------------------------------------
  // Assignments, search and reset

  /** The dashboard's state: the roster, the pass assignments and their stored copy (`None` when
      nothing is stored), the reference time of the passes (`None` for `NaN`) and its stored text,
      and the assignment dialog. */
  datatype AdminState = AdminState(
    members: seq<Member>,
    assignments: map<int, Member>,
    savedAssignments: Option<map<int, Member>>,
    lastReset: Option<int>,
    savedReset: Option<string>,
    current: Option<int>,
    search: string,
    modalOpen: bool)

  /** `useState(() => saved ? parseInt(saved) : Date.now())`. */
  function InitialResetTime(saved: Option<string>, now: int): (t: Option<int>)
    ensures saved.None? || saved == Some("") ==> t == Some(now)
  {
    if saved.Some? && saved.value != "" then Numbers.ParseInt(saved.value) else Some(now)
  }

  /** The dashboard once mounted: stored assignments restored, the reference time read back
      (or now), and the roster fetched. */
  function Mount(fetched: seq<Member>, savedAssignments: Option<map<int, Member>>, savedReset: Option<string>, now: int): (s: AdminState)
    ensures s.members == fetched && s.current.None? && !s.modalOpen
  {
    AdminState(
      fetched,
      if savedAssignments.Some? then savedAssignments.value else map[],
      savedAssignments,
      InitialResetTime(savedReset, now),
      savedReset,
      None, "", false)
  }

  /** `openAssignmentModal(slotId)`. */
  function OpenAssignment(s: AdminState, slotId: int): (s': AdminState)
    ensures s'.current == Some(slotId) && s'.modalOpen && s'.search == ""
    ensures s'.assignments == s.assignments && s'.savedAssignments == s.savedAssignments
  {
    s.(current := Some(slotId), search := "", modalOpen := true)
  }

  /** `handleAssignMember(member)`: the current pass gets the member, the change is stored and
      the dialog closes. Without a current pass nothing happens. */
  function AssignMember(s: AdminState, m: Member): (s': AdminState)
    ensures s.current.None? ==> s' == s
    ensures s.current.Some? ==>
      && s'.current.None? && !s'.modalOpen
      && s'.assignments == s.assignments[s.current.value := m]
      && s'.members == s.members && s'.lastReset == s.lastReset
  {
    if s.current.Some? then
      var a := s.assignments[s.current.value := m];
      s.(assignments := a, savedAssignments := Some(a), modalOpen := false, current := None)
    else s
  }

  /** `handleUnassignMember()`: the current pass is emptied, the change stored, the dialog closed. */
  function UnassignMember(s: AdminState): (s': AdminState)
    ensures s.current.None? ==> s' == s
    ensures s.current.Some? ==>
      && s'.current.None? && !s'.modalOpen
      && s'.assignments == s.assignments - {s.current.value}
      && s'.members == s.members && s'.lastReset == s.lastReset
  {
    if s.current.Some? then
      var a := s.assignments - {s.current.value};
      s.(assignments := a, savedAssignments := Some(a), modalOpen := false, current := None)
    else s
  }

  /** `isAssignedElsewhere`: some pass holds a member with this id, and the pass being edited
      does not hold a member with this id. */
  predicate AssignedElsewhere(a: map<int, Member>, current: Option<int>, m: Member) {
    && (exists k :: k in a && a[k].id == m.id)
    && !(current.Some? && current.value in a && a[current.value].id == m.id)
  }

  /** Clicking a member in the dialog: disabled when the member is assigned elsewhere. */
  function ChooseMember(s: AdminState, m: Member): (s': AdminState)
    ensures AssignedElsewhere(s.assignments, s.current, m) ==> s' == s
    ensures !AssignedElsewhere(s.assignments, s.current, m) && s.current.Some? ==>
      && s'.assignments == s.assignments[s.current.value := m]
      && s'.current.None? && !s'.modalOpen
  {
    if AssignedElsewhere(s.assignments, s.current, m) then s else AssignMember(s, m)
  }

  /** No two passes hold members with the same id. */
  predicate UniqueIds(a: map<int, Member>) {
    forall k, l :: k in a && l in a && k != l ==> a[k].id != a[l].id
  }

  /** A member already on another pass is refused, and the member on the pass being edited is
      not, so choosing keeps every member on at most one pass. */
  lemma ChooseKeepsUniqueIds(s: AdminState, m: Member)
    requires UniqueIds(s.assignments)
    ensures UniqueIds(ChooseMember(s, m).assignments)
    ensures forall k :: k in s.assignments && s.current != Some(k) && s.assignments[k].id == m.id ==>
      AssignedElsewhere(s.assignments, s.current, m)
    ensures s.current.Some? && s.current.value in s.assignments && s.assignments[s.current.value].id == m.id ==>
      !AssignedElsewhere(s.assignments, s.current, m)
  {
    if !AssignedElsewhere(s.assignments, s.current, m) && s.current.Some? {
      var c := s.current.value;
      var a := s.assignments[c := m];
      forall k, l | k in a && l in a && k != l
        ensures a[k].id != a[l].id
      {
        if k == c {
          assert l in s.assignments;
        } else if l == c {
          assert k in s.assignments;
        }
      }
    }
  }

  /** Emptying a pass keeps the members unique. */
  lemma UnassignKeepsUniqueIds(s: AdminState)
    requires UniqueIds(s.assignments)
    ensures UniqueIds(UnassignMember(s).assignments)
  {
  }

  /** The stored copy of the assignments is what the dashboard shows (nothing stored means none). */
  predicate Mirrored(s: AdminState) {
    s.savedAssignments == Some(s.assignments) || (s.savedAssignments.None? && s.assignments == map[])
  }

  /** `confirm()` then `handleFullReset`: every pass emptied and the stored copy removed, the roster
      fetched again (a failed download yields no members), and the reference time moved to now
      and stored. Declining changes nothing. */
  function FullReset(s: AdminState, confirmed: bool, fetched: seq<Member>, now: int): (s': AdminState)
    ensures !confirmed ==> s' == s
    ensures confirmed ==> s'.assignments == map[] && s'.members == fetched && s'.lastReset == Some(now)
  {
    if !confirmed then s
    else s.(assignments := map[], savedAssignments := None, members := fetched,
            lastReset := Some(now), savedReset := Some(Numbers.IntToString(now)))
  }

  /** Every handler keeps the stored copy in step with the dashboard. */
  lemma HandlersKeepMirrored(s: AdminState, m: Member, slotId: int, confirmed: bool, fetched: seq<Member>, now: int)
    requires Mirrored(s)
    ensures Mirrored(OpenAssignment(s, slotId))
    ensures Mirrored(AssignMember(s, m)) && Mirrored(ChooseMember(s, m)) && Mirrored(UnassignMember(s))
    ensures Mirrored(FullReset(s, confirmed, fetched, now))
  {
  }

  /** Mounting restores a stored copy faithfully. */
  lemma MountMirrored(fetched: seq<Member>, saved: Option<map<int, Member>>, savedReset: Option<string>, now: int)
    ensures Mirrored(Mount(fetched, saved, savedReset, now))
    ensures saved.Some? ==> Mount(fetched, saved, savedReset, now).assignments == saved.value
    ensures saved.None? ==> Mount(fetched, saved, savedReset, now).assignments == map[]
  {
  }

  /** After a reset the reference time survives a reload: reading the stored text back at any
      later moment gives the reset time, so links made after the reload expire at the same time. */
  lemma ResetTimeSurvivesReload(s: AdminState, fetched: seq<Member>, now: int, later: int,
                                saved: Option<map<int, Member>>, refetched: seq<Member>)
    ensures var r := FullReset(s, true, fetched, now);
      Mount(refetched, saved, r.savedReset, later).lastReset == Some(now)
  {
    Numbers.ParseIntOfIntToString(now);
  }

  /** The dialog's search: members whose name or id contains the search text, ignoring case. */
  predicate MatchesSearch(m: Member, term: string) {
    Contains(Lower(m.name), Lower(term)) || Contains(Lower(m.id), Lower(term))
  }

  /** `filteredMembersForAssignment`. */
  function FilteredMembers(members: seq<Member>, term: string): (r: seq<Member>)
    ensures forall i :: 0 <= i < |r| ==> r[i] in members && MatchesSearch(r[i], term)
    ensures forall i :: 0 <= i < |members| && MatchesSearch(members[i], term) ==> members[i] in r
  {
    FilterSeq(members, m => MatchesSearch(m, term))
  }

  /** `filteredMembersForAssignment.slice(0, 20)`: what the dialog lists. */
  function ShownMembers(members: seq<Member>, term: string): (r: seq<Member>)
    ensures |r| <= 20
    ensures |r| == if |FilteredMembers(members, term)| <= 20 then |FilteredMembers(members, term)| else 20
    ensures r <= FilteredMembers(members, term)
  {
    TakeLength(FilteredMembers(members, term), 20);
    Take(FilteredMembers(members, term), 20)
  }

  /** The search keeps the roster's order, an empty search lists everyone, and the dialog shows
      the first twenty matches. */
  lemma SearchOrder(members: seq<Member>, term: string)
    ensures IsSubsequence(FilteredMembers(members, term), members)
    ensures term == "" ==> FilteredMembers(members, term) == members
    ensures ShownMembers(members, term) <= FilteredMembers(members, term)
  {
    FilterIsSubsequence(members, m => MatchesSearch(m, term));
    if term == "" {
      forall i | 0 <= i < |members|
        ensures MatchesSearch(members[i], term)
      {
        ContainsEmpty(Lower(members[i].name));
      }
      FilterAllIn(members, m => MatchesSearch(m, term));
    }
  }
}
