/** The Language record the controller returns, and the active-language selector that
    runs over the candidate list once the FilterLanguages event has had its say: a chain
    of FirstOrDefault searches, each tried only when the previous ones found nothing,
    ending with the chosen entry's IsDefault flag being set in place. */
module Languages {
  import opened Wrappers
  import opened Text

  /** What the locale registry (CultureInfo.GetCultureInfo) reports for a code. */
  datatype CultureInfo = CultureInfo(name: string, displayName: string, nativeName: string, isRightToLeft: bool)

  /** The fields of one Language at one moment. */
  datatype LanguageValue = LanguageValue(
    isoCode: string,
    name: string,
    nativeName: string,
    isRightToLeft: bool,
    isDefault: bool)

  /** A Language object: built with IsDefault unset, later flagged by the selector. */
  class Language {
    var isoCode: string
    var name: string
    var nativeName: string
    var isRightToLeft: bool
    var isDefault: bool

    constructor (isoCode: string, name: string, nativeName: string, isRightToLeft: bool)
      ensures Value() == LanguageValue(isoCode, name, nativeName, isRightToLeft, false)
    {
      this.isoCode := isoCode;
      this.name := name;
      this.nativeName := nativeName;
      this.isRightToLeft := isRightToLeft;
      this.isDefault := false;
    }

    function Value(): LanguageValue
      reads this
    {
      LanguageValue(isoCode, name, nativeName, isRightToLeft, isDefault)
    }
  }

  /** The values of a list of Language objects, position by position. */
  function Snapshot(ls: seq<Language>): (vs: seq<LanguageValue>)
    reads set l | l in ls
    ensures |vs| == |ls|
    ensures forall i :: 0 <= i < |ls| ==> vs[i] == ls[i].Value()
    decreases |ls|
  {
    if |ls| == 0 then [] else Snapshot(ls[..|ls| - 1]) + [Last(ls).Value()]
  }

  /** No object appears twice in the list. */
  predicate Distinct(ls: seq<Language>) {
    forall i, j :: 0 <= i < j < |ls| ==> ls[i] != ls[j]
  }

  /** The record a `new Language { IsoCode = x.Name, Name = x.DisplayName, NativeName =
      x.NativeName, ... }` initializer builds from a CultureInfo; IsRightToLeft is copied
      only where the initializer mentions it. */
  function FromCulture(ci: CultureInfo, copyDirection: bool): LanguageValue {
    LanguageValue(ci.name, ci.displayName, ci.nativeName, copyDirection && ci.isRightToLeft, false)
  }

  /** `codes.Select(CultureInfo.GetCultureInfo).Select(x => new Language { ... })`. */
  function FromCodes(codes: seq<string>, cultures: string -> CultureInfo, copyDirection: bool): (vs: seq<LanguageValue>)
    ensures |vs| == |codes|
    ensures forall i :: 0 <= i < |codes| ==> vs[i] == FromCulture(cultures(codes[i]), copyDirection)
  {
    seq(|codes|, i requires 0 <= i < |codes| => FromCulture(cultures(codes[i]), copyDirection))
  }

  /** Builds one fresh Language object per code, in order. */
  method NewLanguages(codes: seq<string>, cultures: string -> CultureInfo, copyDirection: bool)
    returns (ls: seq<Language>)
    ensures forall l :: l in ls ==> fresh(l)
    ensures Distinct(ls)
    ensures Snapshot(ls) == FromCodes(codes, cultures, copyDirection)
  {
    ls := [];
    var i := 0;
    while i < |codes|
      invariant 0 <= i <= |codes|
      invariant |ls| == i
      invariant forall l :: l in ls ==> fresh(l)
      invariant Distinct(ls)
      invariant forall k :: 0 <= k < i ==> ls[k].Value() == FromCulture(cultures(codes[k]), copyDirection)
    {
      var ci := cultures(codes[i]);
      var l := new Language(ci.name, ci.displayName, ci.nativeName, copyDirection && ci.isRightToLeft);
      ls := ls + [l];
      i := i + 1;
    }
  }

  /** The predicates the selector hands to FirstOrDefault. */
  datatype Rule =
    | AlreadyDefault             // x => x.IsDefault
    | IsoCodeIs(code: string)    // x => x.IsoCode == code
    | IsoCodeContains(code: string) // x => x.IsoCode.Contains(code)
    | IsoCodeWithin(code: string)   // x => code.Contains(x.IsoCode)
    | AnyLanguage                // FirstOrDefault() without a predicate

  predicate Satisfies(l: LanguageValue, rule: Rule) {
    match rule
    case AlreadyDefault => l.isDefault
    case IsoCodeIs(code) => l.isoCode == code
    case IsoCodeContains(code) => Contains(l.isoCode, code)
    case IsoCodeWithin(code) => Contains(code, l.isoCode)
    case AnyLanguage => true
  }

  /** FirstOrDefault(rule): the position of the first entry satisfying the rule. */
  function FirstWhere(s: seq<LanguageValue>, rule: Rule): (r: Option<nat>)
    ensures r.Some? ==> r.value < |s| && Satisfies(s[r.value], rule)
    ensures r.Some? ==> forall j :: 0 <= j < r.value ==> !Satisfies(s[j], rule)
    ensures r.None? <==> forall j :: 0 <= j < |s| ==> !Satisfies(s[j], rule)
  {
    FirstMatch(s, l => Satisfies(l, rule))
  }

  /** The entry the selector makes active: the first already flagged; else the first
      whose code is the primary language (only when that setting is non-empty); else
      the first whose code is the current UI culture; else the first whose code
      contains the culture; else the first contained in the culture; else the first. */
  function ActiveIndex(s: seq<LanguageValue>, primaryLanguage: string, currentCulture: string): (r: Option<nat>)
    ensures r.None? <==> |s| == 0
    ensures r.Some? ==> r.value < |s|
  {
    var flagged := FirstWhere(s, AlreadyDefault);
    var primary := if primaryLanguage != "" then OrElse(flagged, s, IsoCodeIs(primaryLanguage)) else flagged;
    var exact := OrElse(primary, s, IsoCodeIs(currentCulture));
    var nearer := OrElse(exact, s, IsoCodeContains(currentCulture));
    var near := OrElse(nearer, s, IsoCodeWithin(currentCulture));
    OrElse(near, s, AnyLanguage)
  }

  /** `if (activeLanguage == null) activeLanguage = FirstOrDefault(rule)`. */
  function OrElse(found: Option<nat>, s: seq<LanguageValue>, rule: Rule): Option<nat> {
    if found.None? then FirstWhere(s, rule) else found
  }

  /** The list after `activeLanguage.IsDefault = true` (positions, not objects). */
  function MarkActive(s: seq<LanguageValue>, active: Option<nat>): (r: seq<LanguageValue>)
    requires active.Some? ==> active.value < |s|
    ensures |r| == |s|
    ensures forall i :: 0 <= i < |s| ==>
      r[i] == s[i].(isDefault := s[i].isDefault || active == Some(i))
  {
    if active.None? then s else s[active.value := s[active.value].(isDefault := true)]
  }

  /** The candidate list after selection. */
  function Select(s: seq<LanguageValue>, primaryLanguage: string, currentCulture: string): (r: seq<LanguageValue>)
    ensures |r| == |s|
    ensures forall i :: 0 <= i < |s| ==> r[i].isoCode == s[i].isoCode && (s[i].isDefault ==> r[i].isDefault)
  {
    MarkActive(s, ActiveIndex(s, primaryLanguage, currentCulture))
  }

  /** The positions flagged IsDefault. */
  function Defaults(s: seq<LanguageValue>): set<nat> {
    set i: nat | i < |s| && s[i].isDefault
  }

  /** An independent reading of the fallback chain: the rank of the first rule an entry
      satisfies (0 = already flagged, ..., 5 = only "first entry" applies). */
  function Rank(l: LanguageValue, primaryLanguage: string, currentCulture: string): nat {
    if l.isDefault then 0
    else if primaryLanguage != "" && l.isoCode == primaryLanguage then 1
    else if l.isoCode == currentCulture then 2
    else if Contains(l.isoCode, currentCulture) then 3
    else if Contains(currentCulture, l.isoCode) then 4
    else 5
  }

  /** The rule of rank `rank`, for entries known to rank no better than `rank`. */
  function RuleOfRank(rank: nat, primaryLanguage: string, currentCulture: string): Rule {
    if rank == 0 then AlreadyDefault
    else if rank == 1 then IsoCodeIs(primaryLanguage)
    else if rank == 2 then IsoCodeIs(currentCulture)
    else if rank == 3 then IsoCodeContains(currentCulture)
    else if rank == 4 then IsoCodeWithin(currentCulture)
    else AnyLanguage
  }

  /** One step of the chain: among entries ranked `rank` or worse, the rule of that rank
      picks the first entry of rank exactly `rank`, and finding none rules that rank out. */
  lemma RuleStep(s: seq<LanguageValue>, primaryLanguage: string, currentCulture: string, rank: nat)
    requires rank <= 5 && (rank == 1 ==> primaryLanguage != "")
    requires forall j :: 0 <= j < |s| ==> Rank(s[j], primaryLanguage, currentCulture) >= rank
    ensures var f := FirstWhere(s, RuleOfRank(rank, primaryLanguage, currentCulture));
      (f.Some? ==>
        Rank(s[f.value], primaryLanguage, currentCulture) == rank &&
        forall j :: 0 <= j < f.value ==> Rank(s[j], primaryLanguage, currentCulture) > rank) &&
      (f.None? ==> forall j :: 0 <= j < |s| ==> Rank(s[j], primaryLanguage, currentCulture) > rank)
  {
    var rule := RuleOfRank(rank, primaryLanguage, currentCulture);
    forall j | 0 <= j < |s|
      ensures Satisfies(s[j], rule) <==> Rank(s[j], primaryLanguage, currentCulture) == rank
    {
    }
  }

  /** Rule priority is strict and each rule takes the first entry in list order: the
      active entry has the lowest rank, and no earlier entry has the same rank. */
  lemma {:induction false} ActiveIndexIsBestRanked(s: seq<LanguageValue>, primaryLanguage: string, currentCulture: string)
    requires |s| > 0
    ensures var r := ActiveIndex(s, primaryLanguage, currentCulture);
      r.Some? && forall j :: 0 <= j < |s| ==>
        Rank(s[r.value], primaryLanguage, currentCulture) < Rank(s[j], primaryLanguage, currentCulture) ||
        (Rank(s[r.value], primaryLanguage, currentCulture) == Rank(s[j], primaryLanguage, currentCulture) && r.value <= j)
  {
    var p, c := primaryLanguage, currentCulture;
    var flagged := FirstWhere(s, AlreadyDefault);
    var primary := if p != "" then OrElse(flagged, s, IsoCodeIs(p)) else flagged;
    var exact := OrElse(primary, s, IsoCodeIs(c));
    var nearer := OrElse(exact, s, IsoCodeContains(c));
    var near := OrElse(nearer, s, IsoCodeWithin(c));
    // walk the chain: each rule that found nothing raises the floor on every entry's
    // rank, and the rule that finds the active entry gives it exactly that rank
    RuleStep(s, p, c, 0);
    if flagged.None? {
      if p != "" {
        RuleStep(s, p, c, 1);
      } else {
        forall j | 0 <= j < |s| ensures Rank(s[j], p, c) > 1 { }
      }
      if primary.None? {
        RuleStep(s, p, c, 2);
        if exact.None? {
          RuleStep(s, p, c, 3);
          if nearer.None? {
            RuleStep(s, p, c, 4);
            if near.None? {
              RuleStep(s, p, c, 5);
            }
          }
        }
      }
    }
  }

  /** On an empty list nothing is flagged and the list is returned as it came. */
  lemma SelectEmpty(primaryLanguage: string, currentCulture: string)
    ensures ActiveIndex([], primaryLanguage, currentCulture) == None
    ensures Select([], primaryLanguage, currentCulture) == []
  {
  }

  /** Selection flips at most the active entry's IsDefault to true: length, order,
      codes, names and every other flag stay as they were. */
  lemma SelectChangesOnlyActiveFlag(s: seq<LanguageValue>, primaryLanguage: string, currentCulture: string)
    ensures var r := Select(s, primaryLanguage, currentCulture);
      var a := ActiveIndex(s, primaryLanguage, currentCulture);
      |r| == |s| &&
      forall i :: 0 <= i < |s| ==>
        r[i] == s[i].(isDefault := s[i].isDefault || (a.Some? && i == a.value))
  {
  }

  /** When an entry is already flagged (by a FilterLanguages handler), the first flagged
      entry is the active one and nothing changes. */
  lemma {:induction false} SelectKeepsExistingDefault(s: seq<LanguageValue>, primaryLanguage: string, currentCulture: string)
    requires Defaults(s) != {}
    ensures var a := ActiveIndex(s, primaryLanguage, currentCulture);
      a.Some? && s[a.value].isDefault &&
      (forall j :: 0 <= j < a.value ==> !s[j].isDefault)
    ensures Select(s, primaryLanguage, currentCulture) == s
  {
    var i :| i in Defaults(s);
    assert Satisfies(s[i], AlreadyDefault);
    var a := ActiveIndex(s, primaryLanguage, currentCulture);
    assert a == FirstWhere(s, AlreadyDefault);
    assert s[a.value := s[a.value].(isDefault := true)] == s;
  }

  /** A list with no flag on entry ends with exactly one flagged entry, the active one. */
  lemma {:induction false} SelectFlagsExactlyOne(s: seq<LanguageValue>, primaryLanguage: string, currentCulture: string)
    requires |s| > 0 && Defaults(s) == {}
    ensures var a := ActiveIndex(s, primaryLanguage, currentCulture);
      a.Some? && Defaults(Select(s, primaryLanguage, currentCulture)) == {a.value}
  {
    var a := ActiveIndex(s, primaryLanguage, currentCulture);
    var r := Select(s, primaryLanguage, currentCulture);
    forall i: nat | i < |s| ensures r[i].isDefault <==> i == a.value {
      assert i !in Defaults(s);
    }
  }

  /** Running the selector again on its own output changes nothing. */
  lemma {:induction false} SelectIdempotent(s: seq<LanguageValue>, primaryLanguage: string, currentCulture: string)
    ensures var r := Select(s, primaryLanguage, currentCulture);
      ActiveIndex(r, primaryLanguage, currentCulture) == ActiveIndex(s, primaryLanguage, currentCulture) &&
      Select(r, primaryLanguage, currentCulture) == r
  {
    var p, c := primaryLanguage, currentCulture;
    var a := ActiveIndex(s, p, c);
    var r := Select(s, p, c);
    if a.Some? {
      assert r[a.value].isDefault;
      assert a.value in Defaults(r);
      SelectKeepsExistingDefault(r, p, c);
      var b := ActiveIndex(r, p, c);
      if Defaults(s) == {} {
        SelectFlagsExactlyOne(s, p, c);
        assert b.value in Defaults(r);
      } else {
        SelectKeepsExistingDefault(s, p, c);
        assert r == s;
      }
    }
  }

  /** The first-match position is determined by its two defining properties. */
  lemma FirstWhereIs(s: seq<LanguageValue>, rule: Rule, k: Option<nat>)
    requires k.Some? ==> k.value < |s| && Satisfies(s[k.value], rule)
    requires k.Some? ==> forall j :: 0 <= j < k.value ==> !Satisfies(s[j], rule)
    requires k.None? ==> forall j :: 0 <= j < |s| ==> !Satisfies(s[j], rule)
    ensures FirstWhere(s, rule) == k
  {
  }

  /** FirstOrDefault(rule) over the live objects: a scan from the front. */
  method FirstOrDefault(languages: seq<Language>, rule: Rule) returns (r: Option<nat>)
    ensures r == FirstWhere(Snapshot(languages), rule)
  {
    ghost var s := Snapshot(languages);
    var i := 0;
    while i < |languages|
      invariant 0 <= i <= |languages|
      invariant forall j :: 0 <= j < i ==> !Satisfies(s[j], rule)
    {
      if Satisfies(languages[i].Value(), rule) {
        FirstWhereIs(s, rule, Some(i));
        return Some(i);
      }
      i := i + 1;
    }
    FirstWhereIs(s, rule, None);
    return None;
  }

  /** The chain of FirstOrDefault searches of the controller: each rule is tried only
      while no entry has been found. */
  method ChooseActiveLanguage(languages: seq<Language>, primaryLanguage: string, currentCulture: string)
    returns (active: Option<nat>)
    ensures active == ActiveIndex(Snapshot(languages), primaryLanguage, currentCulture)
  {
    ghost var s := Snapshot(languages);
    active := FirstOrDefault(languages, AlreadyDefault);
    if active.None? && primaryLanguage != "" {
      active := FirstOrDefault(languages, IsoCodeIs(primaryLanguage));
    }
    assert active == if primaryLanguage != "" then OrElse(FirstWhere(s, AlreadyDefault), s, IsoCodeIs(primaryLanguage))
                     else FirstWhere(s, AlreadyDefault);
    ghost var found := active;
    if active.None? {
      active := FirstOrDefault(languages, IsoCodeIs(currentCulture));
    }
    assert active == OrElse(found, s, IsoCodeIs(currentCulture));
    found := active;
    if active.None? {
      active := FirstOrDefault(languages, IsoCodeContains(currentCulture));
    }
    assert active == OrElse(found, s, IsoCodeContains(currentCulture));
    found := active;
    if active.None? {
      active := FirstOrDefault(languages, IsoCodeWithin(currentCulture));
    }
    assert active == OrElse(found, s, IsoCodeWithin(currentCulture));
    found := active;
    if active.None? {
      active := FirstOrDefault(languages, AnyLanguage);
    }
    assert active == OrElse(found, s, AnyLanguage);
  }

  /** `activeLanguage.IsDefault = true` on the object at position `k`; every position
      holding that same object shows the flag. */
  method FlagDefault(languages: seq<Language>, k: nat)
    requires k < |languages|
    modifies languages[k]
    ensures forall j :: 0 <= j < |languages| ==>
      languages[j].Value() == old(languages[j].Value()).(isDefault :=
        old(languages[j].isDefault) || languages[j] == languages[k])
    ensures Distinct(languages) ==> Snapshot(languages) == MarkActive(old(Snapshot(languages)), Some(k))
  {
    ghost var before := Snapshot(languages);
    var chosen := languages[k];
    chosen.isDefault := true;
    forall j | 0 <= j < |languages|
      ensures languages[j].Value() == before[j].(isDefault := before[j].isDefault || languages[j] == chosen)
    {
      if languages[j] != chosen {
        assert languages[j].Value() == old(languages[j].Value());
      }
    }
    if Distinct(languages) {
      forall j | 0 <= j < |languages|
        ensures Snapshot(languages)[j] == MarkActive(before, Some(k))[j]
      {
        assert languages[j] == chosen ==> j == k;
      }
    }
  }

  /** The selector of the controller: picks the active entry, then flags it in place. */
  method SetActiveLanguage(languages: seq<Language>, primaryLanguage: string, currentCulture: string)
    returns (active: Option<nat>)
    modifies set l | l in languages
    ensures active == ActiveIndex(old(Snapshot(languages)), primaryLanguage, currentCulture)
    ensures forall k :: 0 <= k < |languages| ==>
      languages[k].Value() == old(languages[k].Value()).(isDefault :=
        old(languages[k].isDefault) || (active.Some? && languages[k] == languages[active.value]))
    ensures Distinct(languages) ==>
      Snapshot(languages) == Select(old(Snapshot(languages)), primaryLanguage, currentCulture)
  {
    active := ChooseActiveLanguage(languages, primaryLanguage, currentCulture);
    if active.Some? {
      FlagDefault(languages, active.value);
    }
  }
}
