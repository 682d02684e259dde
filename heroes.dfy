/** The hero directory page (app/heroes/page.tsx): the search filter over the
    fetched hero list, the attribute-code labels, the one or two initials shown on
    every hero card (taken from the localized name), the sorted list of role
    badges and what a badge click does.
    Fetching the list is not part of this model: the list is an input. */
module Heroes {
  import opened JsText
  import opened Sequences

  // ----- data model -----

  /** A hero id may arrive as a number or as a string. */
  datatype HeroId = NumericId(n: int) | TextId(s: string)

  /** A hero record as the directory API returns it; every field may be absent. */
  datatype Hero = Hero(
    id: Option<HeroId>,
    localizedName: Option<string>,
    name: Option<string>,
    roles: Option<seq<string>>,
    primaryAttr: Option<string>,
    attackType: Option<string>)

  /** The page's state that the filter reads: the search box and the fetched
      list, whose entries may be `null` (None). */
  datatype DirectoryView = DirectoryView(searchQuery: string, heroes: seq<Option<Hero>>)

  // ----- the search filter -----

  /** The name the filter searches: the localized name, else the internal name,
      else the empty string (each fallback taken when the field is absent or empty). */
  function DisplayName(hero: Hero): (r: string)
    ensures Truthy(hero.localizedName) ==> r == hero.localizedName.value
    ensures !Truthy(hero.localizedName) && Truthy(hero.name) ==> r == hero.name.value
    ensures !Truthy(hero.localizedName) && !Truthy(hero.name) ==> r == ""
    ensures r != "" ==> Some(r) == hero.localizedName || Some(r) == hero.name
  {
    if Truthy(hero.localizedName) then hero.localizedName.value
    else if Truthy(hero.name) then hero.name.value
    else ""
  }

  /** The role tags, an absent list read as empty. */
  function RolesOf(hero: Hero): (r: seq<string>)
    ensures hero.roles.Some? ==> r == hero.roles.value
    ensures hero.roles.None? ==> r == []
  {
    if hero.roles.Some? then hero.roles.value else []
  }

  /** The filter's predicate: the entry is present and the lowercased query occurs
      in its lowercased display name or in one of its lowercased role tags. */
  predicate HeroMatches(hero: Option<Hero>, searchQuery: string)
    ensures HeroMatches(hero, searchQuery) ==> hero.Some?
  {
    match hero
    case None => false
    case Some(h) =>
      var query := ToLower(searchQuery);
      || Includes(ToLower(DisplayName(h)), query)
      || exists i :: 0 <= i < |RolesOf(h)| && Includes(ToLower(RolesOf(h)[i]), query)
  }

  /** The filter's predicate in terms of positions: the lowercased query occurs
      somewhere in the lowercased display name or in some lowercased role tag. */
  lemma HeroMatchesOccurs(hero: Hero, searchQuery: string)
    ensures HeroMatches(Some(hero), searchQuery) <==>
      || (exists p :: OccursAt(ToLower(DisplayName(hero)), ToLower(searchQuery), p))
      || (exists i, p :: 0 <= i < |RolesOf(hero)| && OccursAt(ToLower(RolesOf(hero)[i]), ToLower(searchQuery), p))
  {
    IncludesIffOccurs(ToLower(DisplayName(hero)), ToLower(searchQuery));
    forall i | 0 <= i < |RolesOf(hero)| {
      IncludesIffOccurs(ToLower(RolesOf(hero)[i]), ToLower(searchQuery));
    }
  }

  /** `heroes.filter(...)`: the entries that match, in their original order. */
  function FilteredHeroes(heroes: seq<Option<Hero>>, searchQuery: string): (r: seq<Option<Hero>>)
    ensures |r| <= |heroes|
    ensures forall k :: 0 <= k < |r| ==> r[k].Some? && HeroMatches(r[k], searchQuery) && r[k] in heroes
    decreases |heroes|
  {
    if heroes == [] then []
    else
      var rest := FilteredHeroes(heroes[1..], searchQuery);
      assert forall h :: h in rest ==> h in heroes;
      (if HeroMatches(heroes[0], searchQuery) then [heroes[0]] else []) + rest
  }

  /** The filtered list is a subsequence of the hero list that keeps exactly the
      positions whose entry matches: order is preserved and nothing is added. */
  lemma {:induction false} FilteredHeroesSelects(heroes: seq<Option<Hero>>, searchQuery: string)
    ensures exists idx ::
      && SelectedAt(FilteredHeroes(heroes, searchQuery), heroes, idx)
      && forall i :: 0 <= i < |heroes| ==> (i in idx <==> HeroMatches(heroes[i], searchQuery))
    decreases |heroes|
  {
    if heroes == [] {
      assert SelectedAt(FilteredHeroes(heroes, searchQuery), heroes, []);
    } else {
      var t := heroes[1..];
      FilteredHeroesSelects(t, searchQuery);
      var idx :| SelectedAt(FilteredHeroes(t, searchQuery), t, idx)
        && forall i :: 0 <= i < |t| ==> (i in idx <==> HeroMatches(t[i], searchQuery));
      var keep := HeroMatches(heroes[0], searchQuery);
      var idx' := SelectedAtPrepend(FilteredHeroes(t, searchQuery), t, idx, heroes[0], keep);
      assert [heroes[0]] + t == heroes;
      assert FilteredHeroes(heroes, searchQuery)
        == (if keep then [heroes[0]] else []) + FilteredHeroes(t, searchQuery);
      forall i | 0 <= i < |heroes|
        ensures i in idx' <==> HeroMatches(heroes[i], searchQuery)
      {
        if i > 0 {
          assert heroes[i] == t[i - 1];
        }
      }
    }
  }

  /** A hero is shown iff it is in the list and matches the query. */
  lemma FilteredHeroesMembership(heroes: seq<Option<Hero>>, searchQuery: string, hero: Option<Hero>)
    ensures hero in FilteredHeroes(heroes, searchQuery) <==> hero in heroes && HeroMatches(hero, searchQuery)
  {
    var r := FilteredHeroes(heroes, searchQuery);
    if hero in heroes && HeroMatches(hero, searchQuery) {
      FilteredHeroesSelects(heroes, searchQuery);
      var idx :| SelectedAt(r, heroes, idx)
        && forall i :: 0 <= i < |heroes| ==> (i in idx <==> HeroMatches(heroes[i], searchQuery));
      var i :| 0 <= i < |heroes| && heroes[i] == hero;
      var k :| 0 <= k < |idx| && idx[k] == i;
      assert r[k] == hero;
    }
  }

  /** Every present entry matches the empty query, since every string includes "". */
  lemma EmptyQueryMatches(hero: Hero)
    ensures HeroMatches(Some(hero), "")
  {
    assert ToLower("") == "";
  }

  /** An empty query shows every present entry: the filter then drops only the
      null entries. */
  lemma EmptyQueryKeepsPresentHeroes(heroes: seq<Option<Hero>>)
    ensures forall i :: 0 <= i < |heroes| && heroes[i].Some? ==> heroes[i] in FilteredHeroes(heroes, "")
  {
    forall i | 0 <= i < |heroes| && heroes[i].Some?
      ensures heroes[i] in FilteredHeroes(heroes, "")
    {
      EmptyQueryMatches(heroes[i].value);
      FilteredHeroesMembership(heroes, "", heroes[i]);
    }
  }

  /** With no null entries, the empty query shows the whole list, in order. */
  lemma {:induction false} EmptyQueryKeepsFullList(heroes: seq<Option<Hero>>)
    requires forall i :: 0 <= i < |heroes| ==> heroes[i].Some?
    ensures FilteredHeroes(heroes, "") == heroes
    decreases |heroes|
  {
    if heroes != [] {
      assert forall i :: 0 <= i < |heroes| - 1 ==> heroes[1..][i] == heroes[i + 1];
      EmptyQueryKeepsFullList(heroes[1..]);
      EmptyQueryMatches(heroes[0].value);
      assert [heroes[0]] + heroes[1..] == heroes;
    }
  }

  /** Two queries with the same lowercase form give the same list: "CARRY" and
      "carry" show the same heroes. */
  lemma {:induction false} QueryCaseInsensitive(heroes: seq<Option<Hero>>, q1: string, q2: string)
    requires ToLower(q1) == ToLower(q2)
    ensures FilteredHeroes(heroes, q1) == FilteredHeroes(heroes, q2)
    decreases |heroes|
  {
    if heroes != [] {
      QueryCaseInsensitive(heroes[1..], q1, q2);
      assert HeroMatches(heroes[0], q1) == HeroMatches(heroes[0], q2);
    }
  }

  /** Searching for "CARRY" shows the same heroes as searching for "carry". */
  lemma CarryAnyCase(heroes: seq<Option<Hero>>)
    ensures FilteredHeroes(heroes, "CARRY") == FilteredHeroes(heroes, "carry")
  {
    assert ToLower("CARRY") == ToLower("carry");
    QueryCaseInsensitive(heroes, "CARRY", "carry");
  }

  /** Lowercasing the query beforehand changes nothing. */
  lemma LowercasedQuerySameResult(heroes: seq<Option<Hero>>, searchQuery: string)
    ensures FilteredHeroes(heroes, ToLower(searchQuery)) == FilteredHeroes(heroes, searchQuery)
  {
    ToLowerIdempotent(searchQuery);
    QueryCaseInsensitive(heroes, ToLower(searchQuery), searchQuery);
  }

  /** A hero whose name and role tags lack a letter of the query, in either
      case, does not match it. */
  lemma MissingLetterNoMatch(hero: Hero, searchQuery: string, c: char)
    requires IsAsciiLower(c) && c in ToLower(searchQuery)
    requires c !in DisplayName(hero) && UpperChar(c) !in DisplayName(hero)
    requires forall i :: 0 <= i < |RolesOf(hero)| ==> c !in RolesOf(hero)[i] && UpperChar(c) !in RolesOf(hero)[i]
    ensures !HeroMatches(Some(hero), searchQuery)
  {
    LowerMissingChar(DisplayName(hero), c);
    MissingCharNotIncluded(ToLower(DisplayName(hero)), ToLower(searchQuery), c);
    forall i | 0 <= i < |RolesOf(hero)|
      ensures !Includes(ToLower(RolesOf(hero)[i]), ToLower(searchQuery))
    {
      LowerMissingChar(RolesOf(hero)[i], c);
      MissingCharNotIncluded(ToLower(RolesOf(hero)[i]), ToLower(searchQuery), c);
    }
  }

  /** Axe (Initiator, Durable) does not match "nuk": no 'k' in its name or roles. */
  lemma AxeMissesNuk()
    ensures !HeroMatches(Some(Hero(None, None, Some("Axe"), Some(["Initiator", "Durable"]), None, None)), "nuk")
  {
    var axe := Hero(None, None, Some("Axe"), Some(["Initiator", "Durable"]), None, None);
    assert ToLower("nuk")[2] == 'k';
    assert DisplayName(axe) == "Axe";
    assert RolesOf(axe) == ["Initiator", "Durable"];
    MissingLetterNoMatch(axe, "nuk", 'k');
  }

  /** Lina (Nuker, Support) matches "nuk" through her first role. */
  lemma LinaMatchesNuk()
    ensures HeroMatches(Some(Hero(None, None, Some("Lina"), Some(["Nuker", "Support"]), None, None)), "nuk")
  {
    var lina := Hero(None, None, Some("Lina"), Some(["Nuker", "Support"]), None, None);
    assert ToLower("nuk") == "nuk";
    assert ToLower(RolesOf(lina)[0]) == "nuker";
    assert Includes(ToLower(RolesOf(lina)[0]), ToLower("nuk"));
  }

  /** The worked example: among Axe and Lina, the query "nuk" shows exactly Lina. */
  lemma NukerExample()
    ensures
      var axe := Hero(None, None, Some("Axe"), Some(["Initiator", "Durable"]), None, None);
      var lina := Hero(None, None, Some("Lina"), Some(["Nuker", "Support"]), None, None);
      FilteredHeroes([Some(axe), Some(lina)], "nuk") == [Some(lina)]
  {
    AxeMissesNuk();
    LinaMatchesNuk();
    var lina := Hero(None, None, Some("Lina"), Some(["Nuker", "Support"]), None, None);
    assert [Some(lina)][1..] == [];
  }

  // ----- role badge clicks -----

  /** The visible list: the filter applied to the current state. */
  function VisibleHeroes(view: DirectoryView): (r: seq<Option<Hero>>)
    ensures |r| <= |view.heroes|
  {
    FilteredHeroes(view.heroes, view.searchQuery)
  }

  /** Clicking a role badge puts that role into the search box, and nothing else. */
  function HandleRoleClick(view: DirectoryView, role: string): (view': DirectoryView)
    ensures view'.searchQuery == role && view'.heroes == view.heroes
  {
    view.(searchQuery := role)
  }

  /** After a role click every hero carrying that role, compared case-insensitively,
      is shown. */
  lemma RoleClickShowsRoleHolders(view: DirectoryView, role: string, i: nat, j: nat)
    requires i < |view.heroes| && view.heroes[i].Some?
    requires j < |RolesOf(view.heroes[i].value)|
    requires ToLower(RolesOf(view.heroes[i].value)[j]) == ToLower(role)
    ensures view.heroes[i] in VisibleHeroes(HandleRoleClick(view, role))
  {
    IncludesSelf(ToLower(role));
    assert HeroMatches(view.heroes[i], role);
    FilteredHeroesMembership(view.heroes, role, view.heroes[i]);
  }

  // ----- attribute labels -----

  /** The attribute codes with a full name of their own. */
  const AttributeCodes: set<string> := {"str", "agi", "int", "all"}

  /** `getAttributeFullName`: the full name of a primary-attribute code; a missing
      or empty code reads "Unknown" and any other code is shown as it is. */
  function AttributeFullName(attr: Option<string>): (r: string)
    ensures r != ""
    ensures Truthy(attr) && attr.value !in AttributeCodes ==> r == attr.value
  {
    if !Truthy(attr) then "Unknown"
    else match attr.value
      case "str" => "Strength"
      case "agi" => "Agility"
      case "int" => "Intelligence"
      case "all" => "Universal"
      case _ => attr.value
  }

  /** The table of known codes. */
  lemma AttributeFullNameTable()
    ensures AttributeFullName(Some("str")) == "Strength"
    ensures AttributeFullName(Some("agi")) == "Agility"
    ensures AttributeFullName(Some("int")) == "Intelligence"
    ensures AttributeFullName(Some("all")) == "Universal"
    ensures AttributeFullName(None) == "Unknown" && AttributeFullName(Some("")) == "Unknown"
  {
  }

  /** "Unknown" is shown for a missing code and for the literal code "Unknown",
      and for nothing else: the label cannot tell the two apart. */
  lemma AttributeUnknownIff(attr: Option<string>)
    ensures AttributeFullName(attr) == "Unknown" <==> !Truthy(attr) || attr.value == "Unknown"
  {
  }

  // ----- hero initials -----

  /** The characters `/\b(\w)/g` matches in `s` when the character before `s` is a
      word character exactly when `prevIsWord`: each word character that follows a
      non-word character (or the start). */
  function InitialsAfter(s: string, prevIsWord: bool): (r: string)
    ensures |r| <= |s|
    ensures forall k :: 0 <= k < |r| ==> IsWordChar(r[k])
    decreases |s|
  {
    if s == [] then []
    else
      (if IsWordChar(s[0]) && !prevIsWord then [s[0]] else [])
      + InitialsAfter(s[1..], IsWordChar(s[0]))
  }

  /** `name.match(/\b(\w)/g).join('')`: the first character of every word-run. */
  function WordInitials(s: string): (r: string)
    ensures |r| <= |s|
    ensures forall k :: 0 <= k < |r| ==> IsWordChar(r[k])
    ensures s != [] && IsWordChar(s[0]) ==> r != [] && r[0] == s[0]
  {
    InitialsAfter(s, false)
  }

  /** Position `i` of `s` starts a word-run, given whether the character before `s`
      is a word character. */
  ghost predicate StartsWordAfter(s: string, prevIsWord: bool, i: int)
    requires 0 <= i < |s|
  {
    IsWordChar(s[i]) && if i == 0 then !prevIsWord else !IsWordChar(s[i - 1])
  }

  /** The matched characters are exactly those at the starts of word-runs, in order. */
  lemma {:induction false} InitialsAfterSelects(s: string, prevIsWord: bool)
    ensures exists idx ::
      && SelectedAt(InitialsAfter(s, prevIsWord), s, idx)
      && forall i :: 0 <= i < |s| ==> (i in idx <==> StartsWordAfter(s, prevIsWord, i))
    decreases |s|
  {
    if s == [] {
      assert SelectedAt(InitialsAfter(s, prevIsWord), s, []);
    } else {
      var t := s[1..];
      var p := IsWordChar(s[0]);
      InitialsAfterSelects(t, p);
      var idx :| SelectedAt(InitialsAfter(t, p), t, idx)
        && forall i :: 0 <= i < |t| ==> (i in idx <==> StartsWordAfter(t, p, i));
      var keep := IsWordChar(s[0]) && !prevIsWord;
      var idx' := SelectedAtPrepend(InitialsAfter(t, p), t, idx, s[0], keep);
      assert [s[0]] + t == s;
      assert InitialsAfter(s, prevIsWord) == (if keep then [s[0]] else []) + InitialsAfter(t, p);
      forall i | 0 <= i < |s|
        ensures i in idx' <==> StartsWordAfter(s, prevIsWord, i)
      {
        if i > 0 {
          assert s[i] == t[i - 1];
          if i > 1 {
            assert s[i - 1] == t[i - 2];
          }
        }
      }
    }
  }

  /** Walking back from a word character reaches the start of its word-run. */
  lemma {:induction false} WordRunStart(s: string, i: nat)
    requires i < |s| && IsWordChar(s[i])
    ensures exists j :: 0 <= j <= i && StartsWordAfter(s, false, j)
    decreases i
  {
    if i == 0 || !IsWordChar(s[i - 1]) {
      assert StartsWordAfter(s, false, i);
    } else {
      WordRunStart(s, i - 1);
    }
  }

  /** The regular expression matches something exactly when `s` holds a word
      character: then `getHeroInitials` uses the word initials, otherwise the
      name's first two characters. */
  lemma WordInitialsNonEmptyIff(s: string)
    ensures |WordInitials(s)| > 0 <==> exists i :: 0 <= i < |s| && IsWordChar(s[i])
  {
    InitialsAfterSelects(s, false);
    var idx :| SelectedAt(WordInitials(s), s, idx)
      && forall i :: 0 <= i < |s| ==> (i in idx <==> StartsWordAfter(s, false, i));
    if |WordInitials(s)| > 0 {
      assert idx[0] in idx;
    }
    if exists i :: 0 <= i < |s| && IsWordChar(s[i]) {
      var i :| 0 <= i < |s| && IsWordChar(s[i]);
      WordRunStart(s, i);
      var j :| 0 <= j <= i && StartsWordAfter(s, false, j);
      assert j in idx;
    }
  }

  /** `getHeroInitials`: "??" for a missing or empty name; otherwise the first two
      word initials, or, when the name has no word character, its first two
      characters; upper-cased either way. */
  function HeroInitials(name: Option<string>): (r: string)
    ensures !Truthy(name) ==> r == "??"
    ensures Truthy(name) ==> 1 <= |r| <= 2
    ensures forall k :: 0 <= k < |r| ==> !IsAsciiLower(r[k])
  {
    if !Truthy(name) then "??"
    else
      var initials := WordInitials(name.value);
      if |initials| > 0 then ToUpper(Leading(initials, 2))
      else ToUpper(Leading(name.value, 2))
  }

  /** For a name with a word character, the first initial is the upper-cased first
      word character of the name; for a name without one, the initials are its
      first characters upper-cased. */
  lemma HeroInitialsFirst(s: string, i: nat)
    requires i < |s| && IsWordChar(s[i])
    requires forall j :: 0 <= j < i ==> !IsWordChar(s[j])
    ensures HeroInitials(Some(s))[0] == UpperChar(s[i])
  {
    WordInitialsNonEmptyIff(s);
    InitialsAfterSelects(s, false);
    var initials := WordInitials(s);
    var idx :| SelectedAt(initials, s, idx)
      && forall j :: 0 <= j < |s| ==> (j in idx <==> StartsWordAfter(s, false, j));
    assert StartsWordAfter(s, false, i);
    var k :| 0 <= k < |idx| && idx[k] == i;
    assert idx[0] in idx;
    assert IsWordChar(s[idx[0]]);
    assert idx[0] == i;
    assert initials[0] == s[i];
  }

  /** For a name whose first two word-runs start at `i < j`, the initials are those
      two characters upper-cased: "Anti-Mage" gives "AM". */
  lemma HeroInitialsTwoWords(s: string, i: nat, j: nat)
    requires i < j < |s|
    requires StartsWordAfter(s, false, i) && StartsWordAfter(s, false, j)
    requires forall k :: 0 <= k < j && k != i ==> !StartsWordAfter(s, false, k)
    ensures HeroInitials(Some(s)) == [UpperChar(s[i]), UpperChar(s[j])]
  {
    InitialsAfterSelects(s, false);
    var initials := WordInitials(s);
    var idx :| SelectedAt(initials, s, idx)
      && forall k :: 0 <= k < |s| ==> (k in idx <==> StartsWordAfter(s, false, k));
    assert i in idx && j in idx;
    var a :| 0 <= a < |idx| && idx[a] == i;
    var b :| 0 <= b < |idx| && idx[b] == j;
    // Every kept position below j is i, so the first two kept positions are i and j.
    assert idx[0] in idx;
    assert idx[0] == i;
    assert idx[1] in idx;
    assert idx[1] == j;
    assert Leading(initials, 2) == [s[i], s[j]];
  }

  /** For a name with a single word-run, starting at `i`, the initials are that
      one character upper-cased: "Io" gives "I". */
  lemma HeroInitialsOneWord(s: string, i: nat)
    requires i < |s| && StartsWordAfter(s, false, i)
    requires forall k :: 0 <= k < |s| && k != i ==> !StartsWordAfter(s, false, k)
    ensures HeroInitials(Some(s)) == [UpperChar(s[i])]
  {
    InitialsAfterSelects(s, false);
    var initials := WordInitials(s);
    var idx :| SelectedAt(initials, s, idx)
      && forall k :: 0 <= k < |s| ==> (k in idx <==> StartsWordAfter(s, false, k));
    assert i in idx;
    forall k | 0 <= k < |idx|
      ensures idx[k] == i
    {
      assert idx[k] in idx;
    }
    assert idx[0] == idx[|idx| - 1];
    assert |idx| == 1;
    assert Leading(initials, 2) == [s[i]];
  }

  /** A name without any word character falls back to its own first two characters. */
  lemma HeroInitialsNoWords(s: string)
    requires s != []
    requires forall j :: 0 <= j < |s| ==> !IsWordChar(s[j])
    ensures HeroInitials(Some(s)) == ToUpper(Leading(s, 2))
  {
    WordInitialsNonEmptyIff(s);
  }

  // ----- role badges list -----

  /** The role names as written in the source, before sorting. */
  const UnsortedRoles: seq<string> :=
    ["Carry", "Support", "Nuker", "Disabler", "Initiator", "Durable", "Escape", "Pusher", "Jungler"]

  /** `allPossibleRoles`: the role names after `.sort()`. */
  const AllPossibleRoles: seq<string> :=
    ["Carry", "Disabler", "Durable", "Escape", "Initiator", "Jungler", "Nuker", "Pusher", "Support"]

  /** The default `.sort()` order: strings compared code unit by code unit, a
      proper prefix first. */
  predicate CodeUnitLe(a: string, b: string)
    ensures a <= b ==> CodeUnitLe(a, b)
    decreases |a|
  {
    a == [] || (b != [] && (a[0] < b[0] || (a[0] == b[0] && CodeUnitLe(a[1..], b[1..]))))
  }

  /** Any two strings are comparable, so `.sort()` can order any list of them. */
  lemma {:induction false} CodeUnitLeTotal(a: string, b: string)
    ensures CodeUnitLe(a, b) || CodeUnitLe(b, a)
    decreases |a|
  {
    if a != [] && b != [] && a[0] == b[0] {
      CodeUnitLeTotal(a[1..], b[1..]);
    }
  }

  ghost predicate Sorted(s: seq<string>)
  {
    forall i, j :: 0 <= i < j < |s| ==> CodeUnitLe(s[i], s[j])
  }

  lemma {:induction false} CodeUnitLeAntisymmetric(a: string, b: string)
    requires CodeUnitLe(a, b) && CodeUnitLe(b, a)
    ensures a == b
    decreases |a|
  {
    if a != [] {
      CodeUnitLeAntisymmetric(a[1..], b[1..]);
      assert a == [a[0]] + a[1..] && b == [b[0]] + b[1..];
    }
  }

  /** Sorted sequences with the same elements start with the same element. */
  lemma SortedHeadsEqual(a: seq<string>, b: seq<string>)
    requires Sorted(a) && Sorted(b) && multiset(a) == multiset(b) && a != []
    ensures b != [] && a[0] == b[0]
  {
    assert a[0] in multiset(b);
    var j :| 0 <= j < |b| && b[j] == a[0];
    assert b[0] in multiset(a);
    var k :| 0 <= k < |a| && a[k] == b[0];
    if j != 0 && k != 0 {
      assert CodeUnitLe(a[0], a[k]) && CodeUnitLe(b[0], b[j]);
      CodeUnitLeAntisymmetric(a[0], b[0]);
    }
  }

  /** Two sorted sequences with the same elements are equal: sorting has one result. */
  lemma {:induction false} SortedPermutationsEqual(a: seq<string>, b: seq<string>)
    requires Sorted(a) && Sorted(b) && multiset(a) == multiset(b)
    ensures a == b
    decreases |a|
  {
    assert |a| == |multiset(a)| == |multiset(b)| == |b|;
    if a != [] {
      SortedHeadsEqual(a, b);
      assert a == [a[0]] + a[1..] && b == [b[0]] + b[1..];
      assert multiset(a[1..]) == multiset(a) - multiset([a[0]]);
      assert multiset(b[1..]) == multiset(b) - multiset([b[0]]);
      assert Sorted(a[1..]) && Sorted(b[1..]);
      SortedPermutationsEqual(a[1..], b[1..]);
    }
  }

  lemma {:induction false} CodeUnitLeTransitive(a: string, b: string, c: string)
    requires CodeUnitLe(a, b) && CodeUnitLe(b, c)
    ensures CodeUnitLe(a, c)
    decreases |a|
  {
    if a != [] && a[0] == b[0] && b[0] == c[0] {
      CodeUnitLeTransitive(a[1..], b[1..], c[1..]);
    }
  }

  /** A sequence whose neighbours are in order is sorted. */
  lemma {:induction false} NeighboursSorted(s: seq<string>)
    requires forall i :: 0 <= i < |s| - 1 ==> CodeUnitLe(s[i], s[i + 1])
    ensures Sorted(s)
    decreases |s|
  {
    if s != [] {
      NeighboursSorted(s[1..]);
      forall j | 0 < j < |s|
        ensures CodeUnitLe(s[0], s[j])
      {
        if j > 1 {
          assert CodeUnitLe(s[1], s[j]) by {
            assert s[1..][0] == s[1] && s[1..][j - 1] == s[j];
          }
          CodeUnitLeTransitive(s[0], s[1], s[j]);
        }
      }
      forall i, j | 0 <= i < j < |s|
        ensures CodeUnitLe(s[i], s[j])
      {
        if i > 0 {
          assert s[1..][i - 1] == s[i] && s[1..][j - 1] == s[j];
        }
      }
    }
  }

  /** Exchanging two elements keeps the same elements. */
  lemma SwapKeepsMultiset<T>(s: seq<T>, i: nat, j: nat)
    requires i < |s| && j < |s|
    ensures multiset(s[i := s[j]][j := s[i]]) == multiset(s)
  {
  }

  /** Five exchanges take the source's order of the roles to the sorted one, so
      the two orders hold the same elements. */
  lemma SortingExchanges<T>(s0: seq<T>, t: seq<T>)
    requires |s0| == 9 && |t| == 9
    requires t[0] == s0[0] && t[1] == s0[3] && t[2] == s0[5] && t[3] == s0[6] && t[4] == s0[4]
    requires t[5] == s0[8] && t[6] == s0[2] && t[7] == s0[7] && t[8] == s0[1]
    ensures multiset(t) == multiset(s0)
  {
    var s1 := s0[1 := s0[3]][3 := s0[1]];
    var s2 := s1[2 := s1[5]][5 := s1[2]];
    var s3 := s2[3 := s2[6]][6 := s2[3]];
    var s4 := s3[5 := s3[8]][8 := s3[5]];
    var s5 := s4[6 := s4[8]][8 := s4[6]];
    assert t == s5;
    SwapKeepsMultiset(s0, 1, 3);
    SwapKeepsMultiset(s1, 2, 5);
    SwapKeepsMultiset(s2, 3, 6);
    SwapKeepsMultiset(s3, 5, 8);
    SwapKeepsMultiset(s4, 6, 8);
  }

  /** `allPossibleRoles` holds exactly the listed roles. */
  lemma AllPossibleRolesPermutation()
    ensures multiset(AllPossibleRoles) == multiset(UnsortedRoles)
  {
    SortingExchanges(UnsortedRoles, AllPossibleRoles);
  }

  /** `allPossibleRoles` is in `.sort()` order and holds exactly the listed roles. */
  lemma AllPossibleRolesSorted()
    ensures Sorted(AllPossibleRoles)
  {
    var s := AllPossibleRoles;
    assert CodeUnitLe(s[0], s[1]) && CodeUnitLe(s[1], s[2]) && CodeUnitLe(s[2], s[3]);
    assert CodeUnitLe(s[3], s[4]) && CodeUnitLe(s[4], s[5]) && CodeUnitLe(s[5], s[6]);
    assert CodeUnitLe(s[6], s[7]) && CodeUnitLe(s[7], s[8]);
    NeighboursSorted(s);
  }

  /** Any sorted arrangement of the listed roles is `allPossibleRoles`: whatever
      algorithm `.sort()` runs, this is its result. */
  lemma SortYieldsAllPossibleRoles(r: seq<string>)
    requires Sorted(r) && multiset(r) == multiset(UnsortedRoles)
    ensures r == AllPossibleRoles
  {
    AllPossibleRolesSorted();
    AllPossibleRolesPermutation();
    SortedPermutationsEqual(r, AllPossibleRoles);
  }
}
