# Vorto language resolution, modelled in Dafny

Vorto is a multilingual property editor for the Umbraco CMS. When an editor opens a
Vorto property, the back office calls `VortoApiController.GetLanguages(section, id,
parentId, dtdGuid)`. The call answers with the languages the property offers and flags
one of them, the active language, as `IsDefault`. This project models that call.

- **Source of the candidate list** (`language_source.dfy`, module `LanguageSource`).
  The data type's pre-values `languageSource`, `xpath` and `primaryLanguage` choose the
  source. It is one of:
  - every installed language;
  - the comma-separated list stored on an ancestor node;
  - the languages of the domains rooted at the nodes the path expression selects;
  - every language some domain uses.
  `BuildCandidates` builds the list with one `AddRange` per source, as the controller
  does. `GetLanguages` is the whole call.
- **Path expressions** (`path_expression.dfy`, module `PathExpression`):
  - the placeholders `$currentPage`, `$parentPage` and `$ancestorOrSelf` are replaced
    by id predicates;
  - the property alias (the last `/`-segment) and the ancestor's content-type alias are
    derived from the expression;
  - the ancestor lookup returns the codes stored on the first ancestor of that type.
- **Stored language lists** (`language_list.dfy`, module `LanguageList`): `[`, `]`, `"`
  and every white-space character are deleted, then the rest is split on `,`.
- **Active-language selector** (`languages.dfy`, module `Languages`):
  - `Language` is a class whose `isDefault` field is set in place.
  - `ActiveIndex` is the fallback chain as a function: already flagged, primary
    language, exact culture, code containing the culture, culture containing the code,
    first entry.
  - `SetActiveLanguage` is the imperative selector proved against that function.
- **.NET string semantics** (`text.dfy`, module `Text`). These are written out over
  `seq<char>`:
  - ordinal `Contains` and `Replace`;
  - `Split` and `Join` on one character;
  - `LastIndexOf`;
  - `IsNullOrWhiteSpace` and `Char.IsWhiteSpace`;
  - the decimal rendering of an `int` in an interpolated string.
- `wrappers.dfy` holds `Option` and `FirstMatch`, the one `FirstOrDefault` scan that both the
  selector's rules and the ancestor lookup use.

The CMS services are values in `LanguageSource.Environment`:
- the pre-values of the data type, absent when it does not exist;
- the set of published ids;
- `GetAncestors`;
- the nodes an XPath expression selects;
- the two domain queries and the installed-language list;
- the locale registry;
- the current UI culture.

Behaviours of the code worth noting:
- With the "inuse" source (line 99), an unpublished node (`id == 0`, or no published
  version) whose parent is the root (`parentId == -1`) gets every in-use domain language
  (lines 106, 111, 177-191). The comment at line 105 says "display all installed in the
  interim", but the code takes the in-use domain query, not the installed languages.
  With any other source every node, this one included, gets the installed languages
  (line 196).
- When the ancestor lookup finds nothing, the fallback is the domain languages of the
  nodes the path selects. When the path selects no node the list stays empty; it does
  not fall back to every in-use language (lines 155-175).
- White space in a stored list is removed entirely, not collapsed (line 140).
- Only the first ancestor of the named content type is asked for the property. Ancestors
  further along the list are never consulted (lines 134-136).
- Entries built from an ancestor's list never set `IsRightToLeft` (lines 144-149).
- `GetAncestors` is called with `id`, even when `$ancestorOrSelf` resolved to the
  parent (line 134).

## Model

| member | source | states |
|---|---|---|
| `Languages.Language.constructor` | src/Our.Umbraco.Vorto/Web/Controllers/VortoApiController.cs:144-149 | a newly built Language carries the given fields and no IsDefault flag |
| `Languages.FromCodes` | src/Our.Umbraco.Vorto/Web/Controllers/VortoApiController.cs:166-173 | one record per code, in order, with the registry's name, display name and native name; the direction is copied only where the initializer names it |
| `Languages.NewLanguages` | src/Our.Umbraco.Vorto/Web/Controllers/VortoApiController.cs:144-149 | builds distinct fresh Language objects whose values are `FromCodes` of the codes |
| `Wrappers.FirstMatch` | src/Our.Umbraco.Vorto/Web/Controllers/VortoApiController.cs:134 | FirstOrDefault(p): the first index whose element satisfies p, none exactly when no element does |
| `Languages.FirstWhere` | src/Our.Umbraco.Vorto/Web/Controllers/VortoApiController.cs:221-241 | FirstOrDefault: the index of the first entry satisfying the rule, none exactly when no entry does |
| `Languages.ActiveIndex` | src/Our.Umbraco.Vorto/Web/Controllers/VortoApiController.cs:218-241 | the chain finds an active entry exactly when the list is non-empty, and it is in range |
| `Languages.ActiveIndexIsBestRanked` | src/Our.Umbraco.Vorto/Web/Controllers/VortoApiController.cs:221-241 | rule priority is strict: the active entry has the lowest rank of the six rules, and is the first entry with that rank |
| `Languages.MarkActive` | src/Our.Umbraco.Vorto/Web/Controllers/VortoApiController.cs:243-244 | keeps length and every entry, and sets IsDefault on the active entry only |
| `Languages.Select` | src/Our.Umbraco.Vorto/Web/Controllers/VortoApiController.cs:218-244 | keeps length, every code and every flag already set |
| `Languages.SelectEmpty` | src/Our.Umbraco.Vorto/Web/Controllers/VortoApiController.cs:241-247 | an empty list gets no active entry and is returned unchanged |
| `Languages.SelectChangesOnlyActiveFlag` | src/Our.Umbraco.Vorto/Web/Controllers/VortoApiController.cs:243-247 | selection keeps length, order and every field, and sets only the active entry's IsDefault |
| `Languages.SelectKeepsExistingDefault` | src/Our.Umbraco.Vorto/Web/Controllers/VortoApiController.cs:220-221 | when an entry is already flagged, the first flagged entry is active and the list does not change |
| `Languages.SelectFlagsExactlyOne` | src/Our.Umbraco.Vorto/Web/Controllers/VortoApiController.cs:240-244 | a non-empty list with no flag ends with exactly the active entry flagged |
| `Languages.SelectIdempotent` | src/Our.Umbraco.Vorto/Web/Controllers/VortoApiController.cs:221-244 | selecting again on the result picks the same entry and changes nothing |
| `Languages.FirstOrDefault` | src/Our.Umbraco.Vorto/Web/Controllers/VortoApiController.cs:221 | a scan of the live objects returns `FirstWhere` of their values |
| `Languages.ChooseActiveLanguage` | src/Our.Umbraco.Vorto/Web/Controllers/VortoApiController.cs:218-241 | the chain of guarded FirstOrDefault calls returns `ActiveIndex` of the list's values |
| `Languages.FlagDefault` | src/Our.Umbraco.Vorto/Web/Controllers/VortoApiController.cs:243-244 | sets IsDefault on the chosen object only; on a list of distinct objects the values become `MarkActive` of the old values |
| `Languages.SetActiveLanguage` | src/Our.Umbraco.Vorto/Web/Controllers/VortoApiController.cs:218-247 | returns `ActiveIndex` of the incoming values; each object's IsDefault is set only if it is the active object; on distinct objects the result is `Select` of the old values |
| `Text.ContainsIffOccurs` | src/Our.Umbraco.Vorto/Web/Controllers/VortoApiController.cs:233-237 | ordinal Contains holds exactly when the pattern occurs at some position |
| `Text.ReplaceAll` | src/Our.Umbraco.Vorto/Web/Controllers/VortoApiController.cs:113-116 | ordinal String.Replace: text that does not contain the pattern is returned unchanged |
| `Text.Contains` | src/Our.Umbraco.Vorto/Web/Controllers/VortoApiController.cs:233-237 | ordinal String.Contains: the empty pattern is contained in every text, and a contained pattern is no longer than the text |
| `Text.IsBlank` | src/Our.Umbraco.Vorto/Web/Controllers/VortoApiController.cs:111-132 | IsNullOrWhiteSpace: the empty text is blank |
| `Text.RemoveWhiteSpace` | src/Our.Umbraco.Vorto/Web/Controllers/VortoApiController.cs:140 | `Regex.Replace(s, "\\s+", "")`: the result has no white space and is no longer than the text |
| `Text.AfterLast` | src/Our.Umbraco.Vorto/Web/Controllers/VortoApiController.cs:129 | `Substring(LastIndexOf(c) + 1)`: a suffix of the text that holds no `c` |
| `Text.ReplaceCharByNothing` | src/Our.Umbraco.Vorto/Web/Controllers/VortoApiController.cs:138 | replacing a one-character string by "" deletes that character everywhere |
| `Text.Split` | src/Our.Umbraco.Vorto/Web/Controllers/VortoApiController.cs:119 | Split always yields at least one piece, and no piece holds the separator |
| `Text.JoinSplit` | src/Our.Umbraco.Vorto/Web/Controllers/VortoApiController.cs:119 | joining the pieces of a split with the separator gives back the text |
| `Text.SplitJoin` | src/Our.Umbraco.Vorto/Web/Controllers/VortoApiController.cs:140 | splitting a join of separator-free pieces gives back the pieces |
| `Text.LastIndexOf` | src/Our.Umbraco.Vorto/Web/Controllers/VortoApiController.cs:129 | the position of the last occurrence of the character, -1 when it is absent |
| `Text.LastPieceAfterLastSeparator` | src/Our.Umbraco.Vorto/Web/Controllers/VortoApiController.cs:119-120 | the last piece of a split is the text after the last separator |
| `Text.LastOfWithout` | src/Our.Umbraco.Vorto/Web/Controllers/VortoApiController.cs:124-128 | Where(x => x != v) is empty exactly when every element is v; otherwise its last element is the last element different from v |
| `Text.IntToStringRoundTrip` | src/Our.Umbraco.Vorto/Web/Controllers/VortoApiController.cs:113-116 | the decimal rendering of an id reads back as the same id |
| `PathExpression.IdPredicate` | src/Our.Umbraco.Vorto/Web/Controllers/VortoApiController.cs:113-116 | the id predicate that replaces a placeholder contains no '$', so it cannot create a placeholder |
| `PathExpression.AncestorOrSelfId` | src/Our.Umbraco.Vorto/Web/Controllers/VortoApiController.cs:101-103 | the id `$ancestorOrSelf` names is the node's own id or its parent's, and the own id whenever the node is saved and published |
| `PathExpression.Substitute` | src/Our.Umbraco.Vorto/Web/Controllers/VortoApiController.cs:113-116 | the three chained Replace calls leave text mentioning none of the placeholders unchanged |
| `PathExpression.SubstituteEveryPlaceholder` | src/Our.Umbraco.Vorto/Web/Controllers/VortoApiController.cs:113-116 | for any expression written as '$'-free literal pieces and placeholders, every placeholder occurrence becomes its id predicate and every literal piece is kept, in order |
| `PathExpression.DollarFreeUnchanged` | src/Our.Umbraco.Vorto/Web/Controllers/VortoApiController.cs:113-116 | text without any '$' is unchanged |
| `PathExpression.SubstituteCurrentPage` | src/Our.Umbraco.Vorto/Web/Controllers/VortoApiController.cs:113-114 | `$currentPage` between any two '$'-free texts becomes the predicate for `id` |
| `PathExpression.SubstituteParentPage` | src/Our.Umbraco.Vorto/Web/Controllers/VortoApiController.cs:114-115 | `$parentPage` between any two '$'-free texts becomes the predicate for `parentId` |
| `PathExpression.SubstituteAncestorOrSelf` | src/Our.Umbraco.Vorto/Web/Controllers/VortoApiController.cs:115-116 | `$ancestorOrSelf` between any two '$'-free texts becomes the predicate for the given id |
| `PathExpression.AncestorOrSelfFollowsPublication` | src/Our.Umbraco.Vorto/Web/Controllers/VortoApiController.cs:101-103 | `$ancestorOrSelf` between '$'-free texts names the parent while the node is unsaved or unpublished, and the node itself once published |
| `PathExpression.PropertyAlias` | src/Our.Umbraco.Vorto/Web/Controllers/VortoApiController.cs:119-120 | the property alias holds no '/' |
| `PathExpression.AncestorAlias` | src/Our.Umbraco.Vorto/Web/Controllers/VortoApiController.cs:118-130 | the ancestor alias holds neither ':' nor '/' |
| `PathExpression.LookupTarget` | src/Our.Umbraco.Vorto/Web/Controllers/VortoApiController.cs:119-132 | a lookup target has a non-blank, '/'-free property alias and a non-blank ancestor alias without ':' or '/' |
| `PathExpression.PropertyAliasAfterLastSlash` | src/Our.Umbraco.Vorto/Web/Controllers/VortoApiController.cs:119-120 | the property alias is the text after the last '/' and holds no '/' |
| `PathExpression.AncestorAliasSpec` | src/Our.Umbraco.Vorto/Web/Controllers/VortoApiController.cs:118-130 | the ancestor alias is "" when every segment is the property alias; otherwise it is the text after the last ':' of the last other segment; it never holds ':' or '/' |
| `PathExpression.LastOtherSegmentWithoutColon` | src/Our.Umbraco.Vorto/Web/Controllers/VortoApiController.cs:124-129 | when the last segment differing from the property alias holds no ':', that whole segment is the ancestor alias, in a path of any length |
| `PathExpression.SegmentWithoutColon` | src/Our.Umbraco.Vorto/Web/Controllers/VortoApiController.cs:119-129 | `type/property` with a colon-free `type` names `type` as the ancestor alias |
| `PathExpression.LookupTargetSpec` | src/Our.Umbraco.Vorto/Web/Controllers/VortoApiController.cs:122-132 | the ancestor lookup runs exactly when both aliases are non-blank |
| `PathExpression.TrailingSlashSkipsLookup` | src/Our.Umbraco.Vorto/Web/Controllers/VortoApiController.cs:120-122 | a path ending in '/' has an empty property alias and skips the lookup |
| `PathExpression.RepeatedSegmentSkipsLookup` | src/Our.Umbraco.Vorto/Web/Controllers/VortoApiController.cs:124-132 | a path whose segments all equal the property alias, however many, names no ancestor type and skips the lookup |
| `PathExpression.RepeatedTwiceSkipsLookup` | src/Our.Umbraco.Vorto/Web/Controllers/VortoApiController.cs:119-132 | `s/s` for a '/'-free `s` skips the lookup |
| `PathExpression.LookupTargetOfTwoSegments` | src/Our.Umbraco.Vorto/Web/Controllers/VortoApiController.cs:119-132 | `step:type/property` looks up `property` on an ancestor of type `type` |
| `PathExpression.FirstOfType` | src/Our.Umbraco.Vorto/Web/Controllers/VortoApiController.cs:134 | the first ancestor with the given content-type alias, none exactly when no ancestor has it |
| `PathExpression.AncestorLanguageCodes` | src/Our.Umbraco.Vorto/Web/Controllers/VortoApiController.cs:134-142 | a list read from an ancestor always has at least one code |
| `PathExpression.AncestorCodesFromFirstOfType` | src/Our.Umbraco.Vorto/Web/Controllers/VortoApiController.cs:134-140 | when the first ancestor of the type has the property, its parsed value is the result |
| `PathExpression.FirstOfTypeWithoutPropertyGivesNothing` | src/Our.Umbraco.Vorto/Web/Controllers/VortoApiController.cs:134-136 | when the first ancestor of the type lacks the property, nothing is read, whatever later ancestors hold |
| `LanguageList.Clean` | src/Our.Umbraco.Vorto/Web/Controllers/VortoApiController.cs:138-140 | the cleaned value holds no white space |
| `LanguageList.ParseLanguageList` | src/Our.Umbraco.Vorto/Web/Controllers/VortoApiController.cs:140 | the parse yields at least one code, and no code holds ',' |
| `LanguageList.CleanIsStripped` | src/Our.Umbraco.Vorto/Web/Controllers/VortoApiController.cs:138-140 | the three replacements plus the white-space regex delete exactly the list-syntax characters and keep the rest in order |
| `LanguageList.ParseLanguageListSpec` | src/Our.Umbraco.Vorto/Web/Controllers/VortoApiController.cs:138-142 | the parse has at least one code; joined with ',' the codes are the cleaned value, order and duplicates kept; no code holds ',' or list syntax |
| `LanguageList.ParseJoined` | src/Our.Umbraco.Vorto/Web/Controllers/VortoApiController.cs:140 | a comma-join of clean codes parses back to those codes |
| `LanguageList.StrippedAppend` | src/Our.Umbraco.Vorto/Web/Controllers/VortoApiController.cs:138-140 | the clean-up works character by character: it distributes over concatenation |
| `LanguageList.ParseEmpty` | src/Our.Umbraco.Vorto/Web/Controllers/VortoApiController.cs:140-142 | an empty stored value parses to one empty code, so the `Any()` guard always holds |
| `LanguageSource.Setting` | src/Our.Umbraco.Vorto/Web/Controllers/VortoApiController.cs:94-108 | a pre-value reads as "" when its key is missing, else as the stored value |
| `LanguageSource.IsUnpublished` | src/Our.Umbraco.Vorto/Web/Controllers/VortoApiController.cs:101-102 | an unsaved node (id 0) and a node without a published version count as unpublished |
| `LanguageSource.UsesPath` | src/Our.Umbraco.Vorto/Web/Controllers/VortoApiController.cs:99-111 | the path branch needs the content section and a non-blank path, and is never taken for an unpublished node under the root |
| `LanguageSource.ResolvedPath` | src/Our.Umbraco.Vorto/Web/Controllers/VortoApiController.cs:101-116 | a stored path without placeholders is used as written |
| `LanguageSource.ChooseCandidates` | src/Our.Umbraco.Vorto/Web/Controllers/VortoApiController.cs:99-205 | the direction is copied for every source but the ancestor list, and an ancestor list is never empty |
| `LanguageSource.Response` | src/Our.Umbraco.Vorto/Web/Controllers/VortoApiController.cs:90-247 | a missing data type gives an empty answer; otherwise one entry per candidate code |
| `LanguageSource.BranchChoice` | src/Our.Umbraco.Vorto/Web/Controllers/VortoApiController.cs:99-111 | installed exactly when the source is not "inuse"; in-use domains exactly when "inuse" without a usable path; ancestor or path domains exactly when the path is usable |
| `LanguageSource.OtherSourceListsInstalled` | src/Our.Umbraco.Vorto/Web/Controllers/VortoApiController.cs:94-205 | a source other than "inuse", including a missing one, lists every installed language in registry order |
| `LanguageSource.UnpublishedRootListsInUse` | src/Our.Umbraco.Vorto/Web/Controllers/VortoApiController.cs:101-111 | with the "inuse" source, an unpublished node under the root gets every in-use language, whatever the path and section |
| `LanguageSource.AncestorListWins` | src/Our.Umbraco.Vorto/Web/Controllers/VortoApiController.cs:134-155 | in the path branch a found ancestor list is the candidate list, without direction |
| `LanguageSource.AncestorMissFallsBackToMatchedDomains` | src/Our.Umbraco.Vorto/Web/Controllers/VortoApiController.cs:155-175 | without an ancestor list the domains of the selected nodes are used, and nothing when no node is selected |
| `LanguageSource.BuiltEntriesUnflagged` | src/Our.Umbraco.Vorto/Web/Controllers/VortoApiController.cs:144-149 | freshly built entries carry no IsDefault flag |
| `LanguageSource.ResponseShape` | src/Our.Umbraco.Vorto/Web/Controllers/VortoApiController.cs:90-247 | a missing data type gives an empty answer; otherwise one entry per candidate code with the registry's fields, and exactly one flagged entry when there is any |
| `LanguageSource.AncestorBranchIsLeftToRight` | src/Our.Umbraco.Vorto/Web/Controllers/VortoApiController.cs:144-149 | entries from an ancestor list are never right-to-left |
| `LanguageSource.BuildCandidates` | src/Our.Umbraco.Vorto/Web/Controllers/VortoApiController.cs:97-205 | the AddRange steps build distinct fresh objects whose values are the chosen candidates |
| `LanguageSource.GetLanguages` | src/Our.Umbraco.Vorto/Web/Controllers/VortoApiController.cs:88-248 | returns distinct fresh objects whose values are the specified response |

## Left out

- The FilterLanguages event (line 215) is not modelled, because its handlers are
  arbitrary code. `GetLanguages` models a call with no handler attached.
  `SetActiveLanguage` accepts any list of non-null `Language` objects with non-null
  codes, aliased ones included.
- A null entry left in `args.Languages` by a handler is not modelled: the controller
  throws at `x.IsDefault` (line 221).
- A null `IsoCode` left by a handler is not modelled: the controller throws at
  `x.IsoCode.Contains` (line 233) or at `currentCulture.Contains(null)` (line 237).
- The database queries (lines 161-165, 180-183) and `Language.GetAllAsList` (line 196)
  are inputs: the codes they return, in the order they return them.
- XPath evaluation by `uQuery.GetNodesByXPath` (line 158) is an input function from the
  substituted expression to node ids.
- `CultureInfo.GetCultureInfo` is modelled as a total function. The exception it throws
  for an unknown code is not modelled.
- `Thread.CurrentThread.CurrentUICulture` is a field of the environment.
- `GetAncestors`, `HasProperty`, `GetValue<string>` and `TypedContent` are inputs:
  - a list of ancestors, each with a content-type alias and a map of string property
    values;
  - a set of published ids.
- The exception for a property that exists but holds null (line 140) is not modelled.
- A pre-value holding null is read as "".
- PathExpression.SubstituteEveryPlaceholder: covers expressions whose literal text holds
  no '$'. A literal '$' next to a placeholder name can form a different match, and that
  case is not stated.
- The unused `ContentService.GetById(id)` (line 96) is not modelled.
- The other controller actions are not modelled: `GetNonVortoDataTypes`,
  `GetDataTypeById`, `GetDataTypeByAlias`, `FormatDataType` and
  `GetInstalledLanguages`.
- The Language record's own file (`src/Our.Umbraco.Vorto/Models/Language.cs`) is not
  part of this model. Its fields are taken from the initializers in the controller.
- `Text.IsWhiteSpace` is the white-space set of current .NET. Differences between Unicode
  versions are not modelled.
