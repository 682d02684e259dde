# Dota 2 front end: hero directory and assistant chat

A model of the two client-side pages of the Dota 2 companion front end that
hold logic of their own.

- The hero directory (`app/heroes/page.tsx`) filters the fetched hero list by a
  case-insensitive substring search over each hero's display name and role tags.
  It maps primary-attribute codes to labels, derives the one or two initials
  shown on every hero card from the hero's localized name, and shows a sorted
  list of role badges. Clicking a
  badge puts the role into the search box. This page is pure and is modelled by
  datatypes, functions and lemmas (module `Heroes`).
- The assistant chat (`app/assistant/page.tsx`) keeps a transcript that starts
  with a fixed welcome message. It also holds an input box, a loading flag, a
  selected hero, a mode (chat, pick or counter) and a session id. Its handlers
  append user questions and assistant answers. This page is stateful and is
  modelled by the class `AssistantChat.AssistantPage`, one method per handler.
  A request to the message endpoint is represented by the outcome it resolves
  to (a reply or an error), passed in as a parameter. Each handler returns the
  request body it would send.
- The JavaScript string built-ins both pages use are in module `JsText`:
  truthiness of optional strings, `toLowerCase`/`toUpperCase`, `includes`,
  `trim`, `substring(0, n)` and the regular-expression class `\w`. Module
  `Sequences` describes a subsequence by the positions it keeps. Both the filter
  and the initials match use it.

A badge click only sets the query. The substring filter then also keeps heroes
whose name or another role contains the role text, so the result is not an
exact-role filter. `Heroes.RoleClickShowsRoleHolders` proves that every holder
of the role is shown, and `Heroes.FilteredHeroesMembership` gives the exact set
shown.

## Model

| member | source | states |
|---|---|---|
| JsText.Truthy | app/heroes/page.tsx:70 | JavaScript truthiness of an optional string, read by `!x` and by the logical or operator: only a present, non-empty string is truthy |
| JsText.IsWhiteSpace | app/assistant/page.tsx:171 | the ECMAScript white-space and line-terminator characters that `trim()` strips; none of them is a word character |
| JsText.IsWordChar | app/heroes/page.tsx:83 | the regular-expression class `\w` without the `u` flag: ASCII letters, digits and `_`, all below 128 |
| JsText.LowerChar | app/heroes/page.tsx:69 | lowercasing one character maps each ASCII capital to the small letter at the same place in the alphabet and leaves every other character alone |
| JsText.UpperChar | app/heroes/page.tsx:85 | uppercasing one character maps each ASCII small letter to the capital at the same place in the alphabet and leaves every other character alone |
| JsText.CaseRoundTrip | app/heroes/page.tsx:69 | lowercasing and uppercasing a letter undo each other |
| JsText.ToLower | app/heroes/page.tsx:69 | `toLowerCase` keeps the length and lowercases each character in place |
| JsText.ToUpper | app/heroes/page.tsx:85-87 | `toUpperCase` keeps the length and uppercases each character in place |
| JsText.ToLowerIdempotent | app/heroes/page.tsx:69 | lowercasing twice is the same as lowercasing once |
| JsText.LowerMissingChar | app/heroes/page.tsx:74 | a small letter that is absent from a string in both cases is absent from its lowercased form |
| JsText.Includes | app/heroes/page.tsx:74-75 | `includes`: a found query is no longer than the string, and the empty query is always found |
| JsText.IncludesIffOccurs | app/heroes/page.tsx:74-75 | `includes` holds exactly when the query occurs at some position as a contiguous run |
| JsText.MissingCharNotIncluded | app/heroes/page.tsx:74-75 | a query with a character the string lacks is not included in it |
| JsText.IncludesSelf | app/heroes/page.tsx:74-75 | every string includes itself |
| JsText.TrimStart | app/assistant/page.tsx:171 | strips exactly the leading white space: the result is a suffix, everything removed is white space, and the result does not start with white space |
| JsText.TrimEnd | app/assistant/page.tsx:171 | strips exactly the trailing white space: the result is a prefix, everything removed is white space, and the result does not end with white space |
| JsText.Trim | app/assistant/page.tsx:171 | `trim()` is empty exactly when every character is white space, and otherwise starts and ends with a non-white-space character |
| JsText.TrimEmptyIffBlank | app/assistant/page.tsx:171 | `s.trim() === ""` holds exactly when every character of `s` is white space |
| JsText.Leading | app/heroes/page.tsx:85 | `substring(0, n)` is a prefix whose length is `n`, or the whole string when it is shorter |
| Heroes.DisplayName | app/heroes/page.tsx:70 | the searched name is the localized name when it is non-empty, else the internal name when that is non-empty, else the empty string |
| Heroes.RolesOf | app/heroes/page.tsx:71 | an absent role list is read as empty; a present one as it is |
| Heroes.HeroMatches | app/heroes/page.tsx:67-76 | the filter callback: a null entry never matches; a present one matches when the lowercased query is included in its lowercased display name or in one of its lowercased role tags |
| Heroes.HeroMatchesOccurs | app/heroes/page.tsx:67-76 | a present hero matches exactly when the lowercased query occurs at some position of its lowercased display name or of one of its lowercased role tags |
| Heroes.FilteredHeroes | app/heroes/page.tsx:66-77 | the filter never lengthens the list, and every entry it keeps is present, matches the query and comes from the list |
| Heroes.FilteredHeroesSelects | app/heroes/page.tsx:66-77 | the result is the list's entries at strictly increasing positions, and a position is kept exactly when its entry matches |
| Heroes.FilteredHeroesMembership | app/heroes/page.tsx:66-77 | an entry is shown if and only if it is in the list and matches the query |
| Heroes.EmptyQueryMatches | app/heroes/page.tsx:69-75 | every present hero matches the empty query, because every string includes the empty string |
| Heroes.EmptyQueryKeepsPresentHeroes | app/heroes/page.tsx:66-77 | the empty query shows every present hero, so it drops only the null entries |
| Heroes.EmptyQueryKeepsFullList | app/heroes/page.tsx:66-77 | with no null entries, the empty query shows the whole list in its order |
| Heroes.QueryCaseInsensitive | app/heroes/page.tsx:69-75 | two queries that lowercase alike give the same result |
| Heroes.CarryAnyCase | app/heroes/page.tsx:66-77 | searching for "CARRY" shows exactly the heroes that searching for "carry" shows |
| Heroes.LowercasedQuerySameResult | app/heroes/page.tsx:69 | searching for a query or for its lowercased form gives the same result |
| Heroes.MissingLetterNoMatch | app/heroes/page.tsx:69-76 | a hero whose name and role tags lack, in both cases, a letter of the lowercased query does not match it |
| Heroes.AxeMissesNuk | app/heroes/page.tsx:70-76 | a hero named only by its internal name Axe, with roles Initiator and Durable, does not match "nuk" |
| Heroes.LinaMatchesNuk | app/heroes/page.tsx:70-76 | a hero named only by its internal name Lina, with role Nuker, matches "nuk" |
| Heroes.NukerExample | app/heroes/page.tsx:66-77 | filtering [Axe, Lina] by "nuk" yields exactly [Lina] |
| Heroes.VisibleHeroes | app/heroes/page.tsx:66-77 | the visible list is the filter applied to the current query and list, and it is no longer than the list |
| Heroes.HandleRoleClick | app/heroes/page.tsx:106-108 | a badge click sets the search query to the role and leaves the hero list as it is |
| Heroes.RoleClickShowsRoleHolders | app/heroes/page.tsx:106-108 | after a badge click, every present hero with a tag equal to the role up to case is shown |
| Heroes.AttributeFullName | app/heroes/page.tsx:22-32 | the label is never empty, and an unlisted non-empty code is shown as it is |
| Heroes.AttributeFullNameTable | app/heroes/page.tsx:23-29 | str, agi, int and all map to Strength, Agility, Intelligence and Universal; a missing or empty code maps to Unknown |
| Heroes.AttributeUnknownIff | app/heroes/page.tsx:22-31 | the label is "Unknown" exactly when the code is missing or empty, or is the literal "Unknown" |
| Heroes.InitialsAfter | app/heroes/page.tsx:83 | the characters that `/\b(\w)/g` captures are word characters, and there are no more of them than characters in the name |
| Heroes.InitialsAfterSelects | app/heroes/page.tsx:83 | the captures are the name's characters at increasing positions, and a position is captured exactly when a word character starts a word there |
| Heroes.WordInitials | app/heroes/page.tsx:83-85 | the joined matches of `/\b(\w)/g` are word characters, no more than the name's characters, and start with the name's first character when that is a word character |
| Heroes.WordRunStart | app/heroes/page.tsx:83 | at or before every word character there is a position where a word starts |
| Heroes.WordInitialsNonEmptyIff | app/heroes/page.tsx:83-84 | the match finds something exactly when the name holds a word character |
| Heroes.HeroInitials | app/heroes/page.tsx:80-88 | "??" for a missing or empty name; otherwise one or two characters; never an ASCII small letter |
| Heroes.HeroInitialsFirst | app/heroes/page.tsx:83-85 | the first initial is the uppercased first word character of the name |
| Heroes.HeroInitialsTwoWords | app/heroes/page.tsx:83-85 | when the first two words start at positions i and j, the initials are exactly the characters at i and j, uppercased |
| Heroes.HeroInitialsOneWord | app/heroes/page.tsx:83-85 | when the name has a single word, starting at position i, the initials are exactly the character at i, uppercased |
| Heroes.HeroInitialsNoWords | app/heroes/page.tsx:86-87 | a name without word characters gets its own first two characters uppercased |
| Heroes.CodeUnitLe | app/heroes/page.tsx:38 | the default comparison of `sort()`, character by character; a prefix comes no later than the string it begins |
| Heroes.CodeUnitLeTotal | app/heroes/page.tsx:38 | any two strings are comparable |
| Heroes.CodeUnitLeAntisymmetric | app/heroes/page.tsx:38 | two strings that each come no later than the other are equal |
| Heroes.CodeUnitLeTransitive | app/heroes/page.tsx:38 | the comparison is transitive |
| Heroes.SortedPermutationsEqual | app/heroes/page.tsx:38 | two sorted lists with the same elements are equal, so a sort has only one possible result |
| Heroes.AllPossibleRolesPermutation | app/heroes/page.tsx:35-38 | the badge list holds the same roles, with the same multiplicities, as the list written in the source |
| Heroes.AllPossibleRolesSorted | app/heroes/page.tsx:35-38 | the badge list is in ascending code-unit order, the default order of `sort()` |
| Heroes.SortYieldsAllPossibleRoles | app/heroes/page.tsx:35-38 | any sorted rearrangement of the written roles is exactly the badge list |
| AssistantChat.CounterQuestion | app/assistant/page.tsx:198 | the counter question is 18 characters longer than the hero name and holds the name right after its fixed opening |
| AssistantChat.ErrorText | app/assistant/page.tsx:161 | the failure text starts with the fixed apology and embeds the error message right after it |
| AssistantChat.OutcomeText | app/assistant/page.tsx:144-164 | a success shows the reply itself; a failure shows a text that starts with the fixed apology |
| AssistantChat.SendAccepted | app/assistant/page.tsx:171 | the guard of a send: an accepted send has a session and a non-empty input |
| AssistantChat.SendAcceptedIff | app/assistant/page.tsx:171 | a send goes ahead exactly when a session exists and the trimmed input is not empty, that is, when the input holds a character that is not white space |
| AssistantChat.CounterQuestionInjective | app/assistant/page.tsx:198 | two counter questions are equal exactly when they name the same hero |
| AssistantChat.ErrorTextInjective | app/assistant/page.tsx:161 | two error texts are equal exactly when the error messages are equal |
| AssistantChat.Response | app/assistant/page.tsx:108-164 | the answer is an assistant message: the no-session text without a session, otherwise the reply or the error text |
| AssistantChat.RequestFor | app/assistant/page.tsx:108-135 | a request is sent exactly when a session exists, and it carries the question and that session id |
| AssistantChat.AssistantPage.constructor | app/assistant/page.tsx:34-48 | on mount the transcript is the welcome message alone, the input is empty, nothing is loading or selected, the mode is chat and there is no session |
| AssistantChat.AssistantPage.SendDisabled | app/assistant/page.tsx:380 | the send button is enabled exactly when nothing is loading and a send would be accepted |
| AssistantChat.AssistantPage.TextareaDisabled | app/assistant/page.tsx:376 | the textarea is enabled in chat mode and disabled in pick mode; in counter mode it is disabled exactly while no hero is selected and the input is all white space |
| AssistantChat.AssistantPage.InitializeSession | app/assistant/page.tsx:81-83 | starting a session stores the new id and changes nothing else |
| AssistantChat.AssistantPage.SetInput | app/assistant/page.tsx:367 | typing replaces the input and changes nothing else |
| AssistantChat.AssistantPage.GetAIResponse | app/assistant/page.tsx:106-168 | exactly one assistant message is appended and loading ends; a request is sent only with a session; the earlier transcript is kept |
| AssistantChat.AssistantPage.HandleSendMessage | app/assistant/page.tsx:170-185 | a blank input or a missing session changes nothing and sends nothing; otherwise the untrimmed input and one answer are appended, the input is cleared and the send button ends disabled |
| AssistantChat.AssistantPage.HandleKeyDown | app/assistant/page.tsx:187-192 | Enter without Shift sends as the send button does; any other key changes nothing |
| AssistantChat.AssistantPage.HandleHeroSelect | app/assistant/page.tsx:194-209 | the hero is always recorded; in counter mode the counter question and one answer are appended on every selection |
| AssistantChat.AssistantPage.HandleModeChange | app/assistant/page.tsx:211-228 | the mode is set and the input and the hero are cleared; pick mode appends the pick question and one answer; afterwards the send button is disabled, and the textarea is disabled in every mode but chat |
| AssistantChat.AssistantPage.HandleQuickQuestion | app/assistant/page.tsx:230-241 | without a session nothing changes; otherwise the question and one answer are appended |
| AssistantChat.RepeatedCounterSelection | app/assistant/page.tsx:194-209 | selecting Pudge twice in counter mode asks "How do I counter Pudge?" twice, each followed by its answer |
| AssistantChat.PickBeforeSession | app/assistant/page.tsx:108-121 | switching to pick mode before a session exists appends the pick question and the no-session message, and sends nothing |

## Left out

- Fetching the hero list on both pages is not modelled, and neither are the loading and error screens of the directory. The list is an input.
- Rendering is not modelled: the JSX, the result count line, the hero cards and the hero picker's displayed value.
- Auto-scrolling the transcript is not modelled, because it only touches the DOM.
- Registering a session with the backend is not modelled. Its result is only logged and never reaches the state. `uuidv4` is replaced by an id parameter.
- Message ids and timestamps read from the clock are not modelled. Every such id is `ClockStamp`, so ids that collide within one millisecond are not captured.
- The HTTP exchange is not modelled. The request body is returned, and the response is an `Outcome` parameter. A failed exchange's error message, including the `API Error: status - detail` form, is any string in `Failure`.
- A success reply is always a string. A response body without a `reply` field is not modelled; the page would append a message whose bubble renders empty.
- AssistantChat.AssistantPage.GetAIResponse: each request resolves before the next event. Overlapping requests, the ordering of their answers, and the session id captured by a stale callback are not modelled.
- AssistantChat.AssistantPage.HandleKeyDown: the newline that Shift+Enter inserts through the browser's default action is not modelled. It reaches the state only through `SetInput`.
- JsText.LowerChar: case mapping covers ASCII letters only. Unicode case mapping, where a character's lower or upper form differs from it outside ASCII, is not modelled. The regular-expression classes `\w` and `\b` are ASCII in the source, so they are exact.
- JsText.Leading: a Dafny string is a sequence of Unicode scalar values, not of UTF-16 code units. `substring`, lengths and positions therefore differ from JavaScript for characters outside the Basic Multilingual Plane. Heroes.HeroInitials inherits this: for "😀😀" JavaScript gives one emoji and the model gives two, and a lone surrogate that JavaScript can produce cannot be represented.
- Heroes.CodeUnitLe: it compares scalar values rather than UTF-16 code units, which order differently only when a character outside the Basic Multilingual Plane meets one from U+E000 to U+FFFF. The role names sorted by the page are ASCII, so the badge list is exact.
- Heroes.AllPossibleRolesSorted: `sort()` is not modelled as an algorithm. The badge list is the sorted literal. Lemmas prove that it is a sorted permutation of the written roles and the only one.
