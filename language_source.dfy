/** GetLanguages as a whole: which source feeds the candidate list (every installed
    language, the list stored on an ancestor, the domains of the nodes a path expression
    selects, or every language a domain uses), the list being built from it, and the
    active-language selector run over the result. */
module LanguageSource {
  import opened Wrappers
  import opened Text
  import opened Languages
  import opened PathExpression

  /** The arguments of the call that matter here (the data type's id is resolved into
      Environment.dataType). */
  datatype Request = Request(section: string, id: int, parentId: int)

  /** What the controller reads from the CMS and its database, as values. */
  datatype Environment = Environment(
    dataType: Option<map<string, string>>,    // pre-values of the data type, None when it does not exist
    published: set<int>,                      // ids with a published version (TypedContent is not null)
    ancestors: int -> seq<Ancestor>,          // ContentService.GetAncestors, in the order it returns them
    selectNodes: string -> seq<int>,          // ids of the nodes an XPath expression selects
    domainLanguages: seq<int> -> seq<string>, // distinct codes of the domains rooted at those ids
    inUseLanguages: seq<string>,              // codes of every language a domain uses
    installedLanguages: seq<string>,          // culture aliases of the installed languages, in order
    cultures: string -> CultureInfo,          // CultureInfo.GetCultureInfo
    currentUICulture: string)                 // name of the thread's current UI culture

  /** A pre-value, "" when the key is missing (a null value reads the same way). */
  function Setting(preValues: map<string, string>, key: string): (r: string)
    ensures key !in preValues ==> r == ""
    ensures key in preValues ==> r == preValues[key]
  {
    if key in preValues then preValues[key] else ""
  }

  /** The node has no published version: it is unsaved (id 0) or unpublished. */
  predicate IsUnpublished(request: Request, env: Environment): (b: bool)
    ensures request.id == 0 ==> b
    ensures request.id !in env.published ==> b
  {
    request.id == 0 || request.id !in env.published
  }

  /** The "inuse" source with a usable path: not an unpublished root, a non-blank path
      expression, and a request from the content section. */
  predicate UsesPath(request: Request, env: Environment, preValues: map<string, string>): (b: bool)
    ensures b ==> request.section == "content" && !IsBlank(Setting(preValues, "xpath"))
    ensures IsUnpublished(request, env) && request.parentId == -1 ==> !b
  {
    Setting(preValues, "languageSource") == "inuse" &&
    !(IsUnpublished(request, env) && request.parentId == -1) &&
    !IsBlank(Setting(preValues, "xpath")) &&
    request.section == "content"
  }

  /** The path expression with its placeholders replaced. */
  function ResolvedPath(request: Request, env: Environment, preValues: map<string, string>): (r: string)
    ensures var xpath := Setting(preValues, "xpath");
      !Contains(xpath, CurrentPage) && !Contains(xpath, ParentPage) && !Contains(xpath, AncestorOrSelf) ==> r == xpath
  {
    Substitute(Setting(preValues, "xpath"), request.id, request.parentId,
      AncestorOrSelfId(request.id, request.parentId, request.id in env.published))
  }

  /** Where the candidate list came from. */
  datatype Branch = Installed | InUse | AncestorProperty | MatchedDomains

  /** The codes that feed the list, and whether IsRightToLeft is copied from the locale
      registry (the ancestor branch leaves it unset). */
  datatype Candidates = Candidates(branch: Branch, codes: seq<string>, copyDirection: bool)

  /** The candidate codes of the call. */
  function ChooseCandidates(request: Request, env: Environment, preValues: map<string, string>): (c: Candidates)
    ensures c.copyDirection <==> c.branch != AncestorProperty
    ensures c.branch == AncestorProperty ==> |c.codes| >= 1
  {
    if Setting(preValues, "languageSource") != "inuse" then
      Candidates(Installed, env.installedLanguages, true)
    else if !UsesPath(request, env, preValues) then
      Candidates(InUse, env.inUseLanguages, true)
    else
      var path := ResolvedPath(request, env, preValues);
      match AncestorLanguageCodes(path, env.ancestors(request.id))
      case Some(codes) => Candidates(AncestorProperty, codes, false)
      case None =>
        var nodeIds := env.selectNodes(path);
        Candidates(MatchedDomains, if |nodeIds| > 0 then env.domainLanguages(nodeIds) else [], true)
  }

  /** The list GetLanguages returns: nothing when the data type does not exist, else the
      candidates after selection (with no FilterLanguages handler attached). */
  function Response(request: Request, env: Environment): (r: seq<LanguageValue>)
    ensures env.dataType.None? ==> r == []
    ensures env.dataType.Some? ==>
      |r| == |ChooseCandidates(request, env, env.dataType.value).codes|
  {
    match env.dataType
    case None => []
    case Some(preValues) =>
      var c := ChooseCandidates(request, env, preValues);
      Select(FromCodes(c.codes, env.cultures, c.copyDirection),
        Setting(preValues, "primaryLanguage"), env.currentUICulture)
  }

  /** Which branch is taken, stated condition by condition. */
  lemma BranchChoice(request: Request, env: Environment, preValues: map<string, string>)
    ensures var c := ChooseCandidates(request, env, preValues);
      (c.branch == Installed <==> Setting(preValues, "languageSource") != "inuse") &&
      (c.branch == InUse <==> Setting(preValues, "languageSource") == "inuse" && !UsesPath(request, env, preValues)) &&
      (c.branch in {AncestorProperty, MatchedDomains} <==> UsesPath(request, env, preValues))
  {
  }

  /** A source other than "inuse", a missing one included, lists every installed
      language in registry order. */
  lemma OtherSourceListsInstalled(request: Request, env: Environment, preValues: map<string, string>)
    requires Setting(preValues, "languageSource") != "inuse"
    ensures ChooseCandidates(request, env, preValues) == Candidates(Installed, env.installedLanguages, true)
  {
  }

  /** An unpublished root node gets every in-use language, whatever the path and the
      section. */
  lemma UnpublishedRootListsInUse(request: Request, env: Environment, preValues: map<string, string>)
    requires Setting(preValues, "languageSource") == "inuse"
    requires IsUnpublished(request, env) && request.parentId == -1
    ensures ChooseCandidates(request, env, preValues) == Candidates(InUse, env.inUseLanguages, true)
  {
  }

  /** In the path branch the ancestor's stored list wins whenever the lookup finds it. */
  lemma AncestorListWins(request: Request, env: Environment, preValues: map<string, string>)
    requires UsesPath(request, env, preValues)
    requires AncestorLanguageCodes(ResolvedPath(request, env, preValues), env.ancestors(request.id)).Some?
    ensures var codes := AncestorLanguageCodes(ResolvedPath(request, env, preValues), env.ancestors(request.id)).value;
      ChooseCandidates(request, env, preValues) == Candidates(AncestorProperty, codes, false)
  {
  }

  /** An ancestor miss falls back to the domains of the nodes the expression selects,
      and to no language at all when it selects none. */
  lemma AncestorMissFallsBackToMatchedDomains(request: Request, env: Environment, preValues: map<string, string>)
    requires UsesPath(request, env, preValues)
    requires AncestorLanguageCodes(ResolvedPath(request, env, preValues), env.ancestors(request.id)).None?
    ensures var nodeIds := env.selectNodes(ResolvedPath(request, env, preValues));
      var c := ChooseCandidates(request, env, preValues);
      c.branch == MatchedDomains &&
      (|nodeIds| == 0 ==> c.codes == []) &&
      (|nodeIds| > 0 ==> c.codes == env.domainLanguages(nodeIds))
  {
  }

  /** Freshly built entries carry no IsDefault flag. */
  lemma {:induction false} BuiltEntriesUnflagged(codes: seq<string>, cultures: string -> CultureInfo, copyDirection: bool)
    ensures Defaults(FromCodes(codes, cultures, copyDirection)) == {}
  {
    var s := FromCodes(codes, cultures, copyDirection);
    forall i: nat | i < |s| ensures !s[i].isDefault {
      assert s[i] == FromCulture(cultures(codes[i]), copyDirection);
    }
  }

  /** A missing data type gives an empty answer; otherwise the answer has one entry per
      candidate code, in order, with the registry's fields, and exactly one of them is
      flagged when there is any. */
  lemma {:induction false} ResponseShape(request: Request, env: Environment)
    ensures env.dataType.None? ==> Response(request, env) == []
    ensures env.dataType.Some? ==>
      var c := ChooseCandidates(request, env, env.dataType.value);
      var r := Response(request, env);
      |r| == |c.codes| &&
      (forall i :: 0 <= i < |r| ==>
        r[i].isoCode == env.cultures(c.codes[i]).name &&
        r[i].name == env.cultures(c.codes[i]).displayName &&
        r[i].nativeName == env.cultures(c.codes[i]).nativeName &&
        (r[i].isRightToLeft <==> c.copyDirection && env.cultures(c.codes[i]).isRightToLeft)) &&
      (|r| > 0 ==> exists a :: Defaults(r) == {a})
  {
    if env.dataType.Some? {
      var preValues := env.dataType.value;
      var c := ChooseCandidates(request, env, preValues);
      var s := FromCodes(c.codes, env.cultures, c.copyDirection);
      var p := Setting(preValues, "primaryLanguage");
      SelectChangesOnlyActiveFlag(s, p, env.currentUICulture);
      if |s| > 0 {
        BuiltEntriesUnflagged(c.codes, env.cultures, c.copyDirection);
        SelectFlagsExactlyOne(s, p, env.currentUICulture);
      }
    }
  }

  /** The ancestor branch never reports a right-to-left language. */
  lemma AncestorBranchIsLeftToRight(request: Request, env: Environment)
    requires env.dataType.Some?
    requires ChooseCandidates(request, env, env.dataType.value).branch == AncestorProperty
    ensures forall i :: 0 <= i < |Response(request, env)| ==> !Response(request, env)[i].isRightToLeft
  {
    ResponseShape(request, env);
  }

  /** The candidate list, built the way the controller builds it: one AddRange per
      source, the path-matched domains consulted only while the list is still empty. */
  method BuildCandidates(request: Request, env: Environment, preValues: map<string, string>)
    returns (languages: seq<Language>)
    ensures forall l :: l in languages ==> fresh(l)
    ensures Distinct(languages)
    ensures var c := ChooseCandidates(request, env, preValues);
      Snapshot(languages) == FromCodes(c.codes, env.cultures, c.copyDirection)
  {
    languages := [];
    var languageSource := Setting(preValues, "languageSource");
    if languageSource == "inuse" {
      var published := request.id != 0 && request.id in env.published;
      var currentNodeIsUnpublishedRootNode := !published && request.parentId == -1;
      var xpath := Setting(preValues, "xpath");
      if !currentNodeIsUnpublishedRootNode && !IsBlank(xpath) && request.section == "content" {
        xpath := Substitute(xpath, request.id, request.parentId,
          AncestorOrSelfId(request.id, request.parentId, request.id in env.published));
        var codes := AncestorLanguageCodes(xpath, env.ancestors(request.id));
        if codes.Some? {
          languages := NewLanguages(codes.value, env.cultures, false);
        }
        if |languages| == 0 {
          var nodeIds := env.selectNodes(xpath);
          if |nodeIds| > 0 {
            languages := NewLanguages(env.domainLanguages(nodeIds), env.cultures, true);
          } else {
            assert FromCodes([], env.cultures, true) == [];
          }
        }
      } else {
        languages := NewLanguages(env.inUseLanguages, env.cultures, true);
      }
    } else {
      languages := NewLanguages(env.installedLanguages, env.cultures, true);
    }
  }

  /** GetLanguages: an empty answer for a missing data type, else the candidate list
      with its active entry flagged in place. */
  method GetLanguages(request: Request, env: Environment) returns (languages: seq<Language>)
    ensures forall l :: l in languages ==> fresh(l)
    ensures Distinct(languages)
    ensures Snapshot(languages) == Response(request, env)
  {
    if env.dataType.None? {
      return [];
    }
    var preValues := env.dataType.value;
    var primaryLanguage := Setting(preValues, "primaryLanguage");
    languages := BuildCandidates(request, env, preValues);
    var active := SetActiveLanguage(languages, primaryLanguage, env.currentUICulture);
  }
}
