/** The ancestor lookup driven by the "xpath" setting: the placeholders `$currentPage`,
    `$parentPage` and `$ancestorOrSelf` become id predicates, the last `/`-segment names
    the property holding the language list, and the last other segment, stripped of any
    axis or prefix before its last ':', names the ancestor's content type. */
module PathExpression {
  import opened Wrappers
  import opened Text
  import opened LanguageList

  const CurrentPage: string := "$currentPage"
  const ParentPage: string := "$parentPage"
  const AncestorOrSelf: string := "$ancestorOrSelf"

  /** The id predicate the controller substitutes for a placeholder: it selects the
      document node with that id. */
  function IdPredicate(id: int): (r: string)
    ensures '$' !in r
  {
    var digits := IntToString(id);
    assert forall i :: 0 <= i < |digits| ==> digits[i] != '$';
    "//*[@id=" + digits + " and @isDoc]"
  }

  /** The id `$ancestorOrSelf` stands for: the parent's while the node has no published
      version (id 0 means the node has not been saved), the node's own otherwise. */
  function AncestorOrSelfId(id: int, parentId: int, published: bool): (r: int)
    ensures r == id || r == parentId
    ensures id != 0 && published ==> r == id
  {
    if id == 0 || !published then parentId else id
  }

  /** The three String.Replace calls, in the order the controller makes them: text that
      mentions none of the placeholders is left as it is. */
  function Substitute(xpath: string, id: int, parentId: int, ancestorOrSelfId: int): (r: string)
    ensures !Contains(xpath, CurrentPage) && !Contains(xpath, ParentPage) && !Contains(xpath, AncestorOrSelf)
      ==> r == xpath
  {
    ReplaceAll(
      ReplaceAll(
        ReplaceAll(xpath, CurrentPage, IdPredicate(id)),
        ParentPage, IdPredicate(parentId)),
      AncestorOrSelf, IdPredicate(ancestorOrSelfId))
  }

  /** Text with no '$' at all contains no placeholder. */
  lemma {:induction false} NoDollarNoPlaceholder(s: string, p: string)
    requires |p| >= 1 && p[0] == '$' && '$' !in s
    ensures !Contains(s, p)
  {
    ContainsIffOccurs(s, p);
    forall i | 0 <= i && i + |p| <= |s| ensures !OccursAt(s, p, i) {
      assert s[i..i + |p|][0] == s[i] != p[0];
    }
  }

  /** Text without any '$' is left as it is. */
  lemma DollarFreeUnchanged(s: string, id: int, parentId: int, ancestorOrSelfId: int)
    requires '$' !in s
    ensures Substitute(s, id, parentId, ancestorOrSelfId) == s
  {
    NoDollarNoPlaceholder(s, CurrentPage);
    NoDollarNoPlaceholder(s, ParentPage);
    NoDollarNoPlaceholder(s, AncestorOrSelf);
  }

  /** The three placeholders. */
  datatype Placeholder = CurrentPageRef | ParentPageRef | AncestorOrSelfRef

  /** How a placeholder is written in the setting. */
  function Name(q: Placeholder): string {
    match q
    case CurrentPageRef => CurrentPage
    case ParentPageRef => ParentPage
    case AncestorOrSelfRef => AncestorOrSelf
  }

  /** Every name is a '$' followed by '$'-free text, and no two share a second character,
      so no name can start inside or at another. */
  lemma NameShape(q: Placeholder)
    ensures |Name(q)| >= 2 && Name(q)[0] == '$' && '$' !in Name(q)[1..]
  {
  }

  lemma NamesDiffer(q: Placeholder, t: Placeholder)
    requires q != t
    ensures Name(q)[1] != Name(t)[1]
  {
  }

  /** A path expression cut into literal text and placeholders. */
  datatype Piece = Literal(text: string) | Ref(placeholder: Placeholder)

  /** What each placeholder reads as in one version of the text. */
  datatype Spelling = Spelling(currentPage: string, parentPage: string, ancestorOrSelf: string)

  function Spell(sp: Spelling, q: Placeholder): string {
    match q
    case CurrentPageRef => sp.currentPage
    case ParentPageRef => sp.parentPage
    case AncestorOrSelfRef => sp.ancestorOrSelf
  }

  /** The spelling after one placeholder has been rewritten to `s`. */
  function Respell(sp: Spelling, t: Placeholder, s: string): (r: Spelling)
    ensures forall q :: Spell(r, q) == if q == t then s else Spell(sp, q)
  {
    match t
    case CurrentPageRef => sp.(currentPage := s)
    case ParentPageRef => sp.(parentPage := s)
    case AncestorOrSelfRef => sp.(ancestorOrSelf := s)
  }

  /** The placeholders as the setting writes them. */
  const Written: Spelling := Spelling(CurrentPage, ParentPage, AncestorOrSelf)

  /** The placeholders as the controller resolves them. */
  function Resolved(id: int, parentId: int, ancestorOrSelfId: int): Spelling {
    Spelling(IdPredicate(id), IdPredicate(parentId), IdPredicate(ancestorOrSelfId))
  }

  /** The text of one piece. */
  function PieceText(piece: Piece, sp: Spelling): string {
    match piece
    case Literal(text) => text
    case Ref(q) => Spell(sp, q)
  }

  /** The text of the pieces, each placeholder spelled as `sp` says. */
  function Render(ps: seq<Piece>, sp: Spelling): string
    decreases |ps|
  {
    if |ps| == 0 then "" else PieceText(ps[0], sp) + Render(ps[1..], sp)
  }

  /** The text of a literal, a placeholder and a literal. */
  lemma RenderThree(a: string, q: Placeholder, b: string, sp: Spelling)
    ensures Render([Literal(a), Ref(q), Literal(b)], sp) == a + Spell(sp, q) + b
  {
    var ps := [Literal(a), Ref(q), Literal(b)];
    assert ps[1..] == [Ref(q), Literal(b)];
    assert ps[1..][1..] == [Literal(b)];
    assert ps[1..][1..][1..] == [];
    assert Render([Literal(b)], sp) == b;
    assert Render(ps[1..], sp) == Spell(sp, q) + b;
  }

  /** No literal piece holds a '$', so every '$' of the text starts a placeholder. */
  predicate PlainLiterals(ps: seq<Piece>) {
    forall i :: 0 <= i < |ps| && ps[i].Literal? ==> '$' !in ps[i].text
  }

  /** Another placeholder's name is copied unchanged ahead of the replacements made in
      the text after it. */
  lemma ReplaceAfterOtherName(q: Placeholder, t: Placeholder, rest: string, r: string)
    requires q != t
    ensures ReplaceAll(Name(q) + rest, Name(t), r) == Name(q) + ReplaceAll(rest, Name(t), r)
  {
    NameShape(q);
    NameShape(t);
    NamesDiffer(q, t);
    ReplaceAfterOtherPattern(Name(q), rest, Name(t), r);
  }

  /** One Replace call rewrites exactly the occurrences of its placeholder, when every
      other piece is either another placeholder's name or '$'-free. */
  lemma {:induction false} ReplacePlaceholder(ps: seq<Piece>, sp: Spelling, t: Placeholder, r: string)
    requires PlainLiterals(ps)
    requires Spell(sp, t) == Name(t) && '$' !in r
    requires forall q :: q != t ==> Spell(sp, q) == Name(q) || '$' !in Spell(sp, q)
    ensures ReplaceAll(Render(ps, sp), Name(t), r) == Render(ps, Respell(sp, t, r))
    decreases |ps|
  {
    NameShape(t);
    var p := Name(t);
    if |ps| > 0 {
      var rest := Render(ps[1..], sp);
      assert PlainLiterals(ps[1..]) by {
        forall i | 0 <= i < |ps[1..]| && ps[1..][i].Literal? ensures '$' !in ps[1..][i].text {
          assert ps[1..][i] == ps[i + 1];
        }
      }
      ReplacePlaceholder(ps[1..], sp, t, r);
      assert Render(ps, sp) == PieceText(ps[0], sp) + rest;
      assert Render(ps, Respell(sp, t, r)) == PieceText(ps[0], Respell(sp, t, r)) + Render(ps[1..], Respell(sp, t, r));
      match ps[0]
      case Literal(text) =>
        assert '$' !in text by {
          assert ps[0].Literal?;
        }
        ReplaceAfterPlainText(text, rest, p, r);
      case Ref(q) =>
        if q == t {
          ReplaceLeading(p, rest, r);
        } else if Spell(sp, q) == Name(q) {
          ReplaceAfterOtherName(q, t, rest, r);
        } else {
          ReplaceAfterPlainText(Spell(sp, q), rest, p, r);
        }
    }
  }

  /** Every placeholder, wherever and however often it occurs, becomes its id predicate,
      and the literal text around the placeholders is kept, as long as that text holds no
      '$' of its own. */
  lemma SubstituteEveryPlaceholder(ps: seq<Piece>, id: int, parentId: int, ancestorOrSelfId: int)
    requires PlainLiterals(ps)
    ensures Substitute(Render(ps, Written), id, parentId, ancestorOrSelfId) ==
      Render(ps, Resolved(id, parentId, ancestorOrSelfId))
  {
    var sp1 := Respell(Written, CurrentPageRef, IdPredicate(id));
    var sp2 := Respell(sp1, ParentPageRef, IdPredicate(parentId));
    ReplacePlaceholder(ps, Written, CurrentPageRef, IdPredicate(id));
    ReplacePlaceholder(ps, sp1, ParentPageRef, IdPredicate(parentId));
    ReplacePlaceholder(ps, sp2, AncestorOrSelfRef, IdPredicate(ancestorOrSelfId));
    assert Respell(sp2, AncestorOrSelfRef, IdPredicate(ancestorOrSelfId)) == Resolved(id, parentId, ancestorOrSelfId);
  }

  /** One placeholder between '$'-free texts. */
  lemma PlacedPlaceholder(a: string, q: Placeholder, b: string, id: int, parentId: int, ancestorOrSelfId: int)
    requires '$' !in a && '$' !in b
    ensures Substitute(a + Name(q) + b, id, parentId, ancestorOrSelfId) ==
      a + Spell(Resolved(id, parentId, ancestorOrSelfId), q) + b
  {
    var ps := [Literal(a), Ref(q), Literal(b)];
    var resolved := Resolved(id, parentId, ancestorOrSelfId);
    assert Spell(Written, q) == Name(q);
    RenderThree(a, q, b, Written);
    RenderThree(a, q, b, resolved);
    SubstituteEveryPlaceholder(ps, id, parentId, ancestorOrSelfId);
  }

  /** `$currentPage` between '$'-free texts selects the node itself. */
  lemma SubstituteCurrentPage(a: string, b: string, id: int, parentId: int, ancestorOrSelfId: int)
    requires '$' !in a && '$' !in b
    ensures Substitute(a + CurrentPage + b, id, parentId, ancestorOrSelfId) == a + IdPredicate(id) + b
  {
    PlacedPlaceholder(a, CurrentPageRef, b, id, parentId, ancestorOrSelfId);
  }

  /** `$parentPage` between '$'-free texts selects the parent node. */
  lemma SubstituteParentPage(a: string, b: string, id: int, parentId: int, ancestorOrSelfId: int)
    requires '$' !in a && '$' !in b
    ensures Substitute(a + ParentPage + b, id, parentId, ancestorOrSelfId) == a + IdPredicate(parentId) + b
  {
    PlacedPlaceholder(a, ParentPageRef, b, id, parentId, ancestorOrSelfId);
  }

  /** `$ancestorOrSelf` between '$'-free texts selects the node with the id given for it. */
  lemma SubstituteAncestorOrSelf(a: string, b: string, id: int, parentId: int, ancestorOrSelfId: int)
    requires '$' !in a && '$' !in b
    ensures Substitute(a + AncestorOrSelf + b, id, parentId, ancestorOrSelfId) == a + IdPredicate(ancestorOrSelfId) + b
  {
    PlacedPlaceholder(a, AncestorOrSelfRef, b, id, parentId, ancestorOrSelfId);
  }

  /** For `$ancestorOrSelf` the controller picks the parent while the node is unsaved or
      unpublished, and the node itself once it is published. */
  lemma AncestorOrSelfFollowsPublication(a: string, b: string, id: int, parentId: int, published: bool)
    requires '$' !in a && '$' !in b
    ensures var r := Substitute(a + AncestorOrSelf + b, id, parentId, AncestorOrSelfId(id, parentId, published));
      (id == 0 || !published ==> r == a + IdPredicate(parentId) + b) &&
      (id != 0 && published ==> r == a + IdPredicate(id) + b)
  {
    SubstituteAncestorOrSelf(a, b, id, parentId, AncestorOrSelfId(id, parentId, published));
  }

  /** The property alias: `xpath.Split('/').LastOrDefault()`, never null since Split
      always yields a piece. */
  function PropertyAlias(xpath: string): (r: string)
    ensures '/' !in r
  {
    Last(Split(xpath, '/'))
  }

  /** The ancestor's content-type alias: the last segment different from the property
      alias, from just after its last ':' on; "" when every segment is the property alias. */
  function AncestorAlias(xpath: string): (r: string)
    ensures ':' !in r && '/' !in r
  {
    var segments := Split(xpath, '/');
    var others := Without(segments, Last(segments));
    if |others| > 0 then AfterLast(Last(others), ':') else ""
  }

  /** The two aliases an ancestor lookup needs. */
  datatype Target = Target(propertyAlias: string, ancestorAlias: string)

  /** The lookup target, or None when the property alias or the ancestor alias is blank
      (the controller then skips the ancestor lookup). */
  function LookupTarget(xpath: string): (r: Option<Target>)
    ensures r.Some? ==> !IsBlank(r.value.propertyAlias) && '/' !in r.value.propertyAlias
    ensures r.Some? ==> !IsBlank(r.value.ancestorAlias) && ':' !in r.value.ancestorAlias && '/' !in r.value.ancestorAlias
  {
    var propertyAlias := PropertyAlias(xpath);
    if IsBlank(propertyAlias) then None
    else
      var ancestorAlias := AncestorAlias(xpath);
      if IsBlank(ancestorAlias) then None else Some(Target(propertyAlias, ancestorAlias))
  }

  /** The property alias is the text after the last '/', and holds no '/'. */
  lemma PropertyAliasAfterLastSlash(xpath: string)
    ensures PropertyAlias(xpath) == AfterLast(xpath, '/')
    ensures '/' !in PropertyAlias(xpath)
  {
    LastPieceAfterLastSeparator(xpath, '/');
  }

  /** The ancestor alias is empty when every segment equals the property alias; otherwise
      it is the text after the last ':' of the last segment that differs from it. */
  lemma AncestorAliasSpec(xpath: string)
    ensures (forall i :: 0 <= i < |Split(xpath, '/')| ==> Split(xpath, '/')[i] == PropertyAlias(xpath)) ==>
      AncestorAlias(xpath) == ""
    ensures (exists i :: 0 <= i < |Split(xpath, '/')| && Split(xpath, '/')[i] != PropertyAlias(xpath)) ==>
      exists k :: 0 <= k < |Split(xpath, '/')| && Split(xpath, '/')[k] != PropertyAlias(xpath) &&
        (forall j :: k < j < |Split(xpath, '/')| ==> Split(xpath, '/')[j] == PropertyAlias(xpath)) &&
        AncestorAlias(xpath) == AfterLast(Split(xpath, '/')[k], ':')
    ensures ':' !in AncestorAlias(xpath) && '/' !in AncestorAlias(xpath)
  {
    var segments := Split(xpath, '/');
    var p := Last(segments);
    LastOfWithout(segments, p);
    var others := Without(segments, p);
    assert AncestorAlias(xpath) == if |others| > 0 then AfterLast(Last(others), ':') else "";
    if |others| > 0 {
      assert others != [];
      var k :| 0 <= k < |segments| && segments[k] != p && Last(others) == segments[k] &&
        forall j :: k < j < |segments| ==> segments[j] == p;
      assert segments[k] != PropertyAlias(xpath);
    } else {
      assert AncestorAlias(xpath) == "";
    }
  }

  /** The lookup runs exactly when both aliases are non-blank, and then with those aliases. */
  lemma LookupTargetSpec(xpath: string)
    ensures LookupTarget(xpath).Some? <==> !IsBlank(PropertyAlias(xpath)) && !IsBlank(AncestorAlias(xpath))
    ensures LookupTarget(xpath).Some? ==>
      LookupTarget(xpath).value == Target(PropertyAlias(xpath), AncestorAlias(xpath))
  {
  }

  /** A path ending in '/' has an empty property alias, so the lookup is skipped. */
  lemma TrailingSlashSkipsLookup(xpath: string)
    ensures PropertyAlias(xpath + "/") == ""
    ensures LookupTarget(xpath + "/") == None
  {
    PropertyAliasAfterLastSlash(xpath + "/");
    assert LastIndexOf(xpath + "/", '/') == |xpath|;
  }

  /** A path whose segments all equal the property alias names no ancestor type, so the
      lookup is skipped. */
  lemma RepeatedSegmentSkipsLookup(xpath: string)
    requires forall i :: 0 <= i < |Split(xpath, '/')| ==> Split(xpath, '/')[i] == PropertyAlias(xpath)
    ensures AncestorAlias(xpath) == ""
    ensures LookupTarget(xpath) == None
  {
    AncestorAliasSpec(xpath);
  }

  /** For instance a segment repeated twice. */
  lemma RepeatedTwiceSkipsLookup(segment: string)
    requires '/' !in segment
    ensures LookupTarget(segment + "/" + segment) == None
  {
    var xpath := segment + "/" + segment;
    var segments := [segment, segment];
    assert Join(segments, '/') == xpath by {
      assert segments[..1] == [segment];
    }
    SplitJoin(segments, '/');
    RepeatedSegmentSkipsLookup(xpath);
  }

  /** When the last segment that differs from the property alias holds no ':', that
      whole segment is the ancestor alias, wherever it stands in the path. */
  lemma LastOtherSegmentWithoutColon(xpath: string, k: nat)
    requires k < |Split(xpath, '/')| && Split(xpath, '/')[k] != PropertyAlias(xpath)
    requires forall j :: k < j < |Split(xpath, '/')| ==> Split(xpath, '/')[j] == PropertyAlias(xpath)
    requires ':' !in Split(xpath, '/')[k]
    ensures AncestorAlias(xpath) == Split(xpath, '/')[k]
  {
    var segments := Split(xpath, '/');
    AncestorAliasSpec(xpath);
    var k' :| 0 <= k' < |segments| && segments[k'] != PropertyAlias(xpath) &&
      (forall j :: k' < j < |segments| ==> segments[j] == PropertyAlias(xpath)) &&
      AncestorAlias(xpath) == AfterLast(segments[k'], ':');
    assert k' == k;
    AfterLastAbsent(segments[k], ':');
  }

  /** The two-segment case: `type/property` with a colon-free `type` names `type`. */
  lemma SegmentWithoutColon(typeAlias: string, propertyAlias: string)
    requires '/' !in typeAlias && '/' !in propertyAlias && ':' !in typeAlias
    requires typeAlias != propertyAlias
    ensures AncestorAlias(typeAlias + "/" + propertyAlias) == typeAlias
  {
    var xpath := typeAlias + "/" + propertyAlias;
    var segments := [typeAlias, propertyAlias];
    assert Join(segments, '/') == xpath by {
      assert segments[..1] == [typeAlias];
    }
    SplitJoin(segments, '/');
    assert Without(segments, propertyAlias) == [typeAlias] by {
      assert segments[..1] == [typeAlias];
      assert Without([typeAlias], propertyAlias) == [typeAlias] by {
        assert [typeAlias][..0] == [];
      }
    }
    assert LastIndexOf(typeAlias, ':') == -1;
  }

  /** A typical setting: `<ancestor step>::<type alias>/<property alias>`. */
  lemma LookupTargetOfTwoSegments(step: string, typeAlias: string, propertyAlias: string)
    requires '/' !in step && '/' !in typeAlias && '/' !in propertyAlias && ':' !in typeAlias
    requires !IsBlank(typeAlias) && !IsBlank(propertyAlias)
    requires step + ":" + typeAlias != propertyAlias
    ensures LookupTarget(step + ":" + typeAlias + "/" + propertyAlias) == Some(Target(propertyAlias, typeAlias))
  {
    var seg := step + ":" + typeAlias;
    var xpath := seg + "/" + propertyAlias;
    assert '/' !in seg;
    var segments := [seg, propertyAlias];
    assert Join(segments, '/') == xpath by {
      assert segments[..1] == [seg];
    }
    SplitJoin(segments, '/');
    assert Without(segments, propertyAlias) == [seg] by {
      assert segments[..1] == [seg];
      assert Without([seg], propertyAlias) == [seg] by {
        assert [seg][..0] == [];
      }
    }
    AfterLastAt(step, typeAlias, ':');
    assert step + ":" + typeAlias == step + [':'] + typeAlias;
  }

  /** One ancestor of the node: its content-type alias and the string values of the
      properties it has (HasProperty is membership, GetValue<string> the stored value). */
  datatype Ancestor = Ancestor(typeAlias: string, properties: map<string, string>)

  /** `ancestors.FirstOrDefault(x => x.ContentType.Alias == alias)`. */
  function FirstOfType(ancestors: seq<Ancestor>, alias: string): (r: Option<nat>)
    ensures r.Some? ==> r.value < |ancestors| && ancestors[r.value].typeAlias == alias
    ensures r.Some? ==> forall j :: 0 <= j < r.value ==> ancestors[j].typeAlias != alias
    ensures r.None? <==> forall j :: 0 <= j < |ancestors| ==> ancestors[j].typeAlias != alias
  {
    FirstMatch(ancestors, (a: Ancestor) => a.typeAlias == alias)
  }

  /** The codes stored on the ancestor the path names: None when the lookup is skipped,
      no ancestor has the type, or the first ancestor of that type lacks the property. */
  function AncestorLanguageCodes(xpath: string, ancestors: seq<Ancestor>): (r: Option<seq<string>>)
    ensures r.Some? ==> |r.value| >= 1
  {
    match LookupTarget(xpath)
    case None => None
    case Some(target) =>
      match FirstOfType(ancestors, target.ancestorAlias)
      case None => None
      case Some(k) =>
        if target.propertyAlias in ancestors[k].properties
        then Some(ParseLanguageList(ancestors[k].properties[target.propertyAlias]))
        else None
  }

  /** When the first ancestor of the named type has the property, its parsed value is
      the result. */
  lemma AncestorCodesFromFirstOfType(xpath: string, ancestors: seq<Ancestor>, target: Target, k: nat)
    requires LookupTarget(xpath) == Some(target)
    requires k < |ancestors| && ancestors[k].typeAlias == target.ancestorAlias
    requires forall j :: 0 <= j < k ==> ancestors[j].typeAlias != target.ancestorAlias
    requires target.propertyAlias in ancestors[k].properties
    ensures AncestorLanguageCodes(xpath, ancestors) ==
      Some(ParseLanguageList(ancestors[k].properties[target.propertyAlias]))
  {
    assert FirstOfType(ancestors, target.ancestorAlias) == Some(k);
  }

  /** Only the first ancestor of the named type is asked for the property: when it lacks
      it, later ancestors of that type are not consulted. */
  lemma FirstOfTypeWithoutPropertyGivesNothing(xpath: string, ancestors: seq<Ancestor>, target: Target, k: nat)
    requires LookupTarget(xpath) == Some(target)
    requires k < |ancestors| && ancestors[k].typeAlias == target.ancestorAlias
    requires forall j :: 0 <= j < k ==> ancestors[j].typeAlias != target.ancestorAlias
    requires target.propertyAlias !in ancestors[k].properties
    ensures AncestorLanguageCodes(xpath, ancestors) == None
  {
    assert FirstOfType(ancestors, target.ancestorAlias) == Some(k);
  }
}
