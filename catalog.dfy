/**
 * The client of src/App.jsx: the search filter over the fetched list, the icon
 * chosen for an app's name, and the state that loading the list goes through.
 */
module Catalog {
  import opened Wrappers
  import opened Seqs
  import opened Strings
  import opened Inventory

  // ---------------------------------------------------------------------------
  // Search

  /** `app.name.toLowerCase().includes(searchTerm.toLowerCase())`. */
  predicate NameMatches(app: Entry, term: string): (b: bool)
    ensures b <==> exists i :: 0 <= i <= |app.name| && OccursAt(Lower(term), Lower(app.name), i)
    ensures term == "" ==> b
  {
    ContainsEmpty(Lower(app.name));
    Contains(Lower(app.name), Lower(term))
  }

  /** The filter callback for a search term. */
  function Matcher(term: string): Entry -> bool {
    app => NameMatches(app, term)
  }

  /** Every name contains the empty search term. */
  lemma EmptyTermMatchesAll(apps: seq<Entry>)
    ensures forall i :: 0 <= i < |apps| ==> Matcher("")(apps[i])
  {
    forall i | 0 <= i < |apps| ensures Matcher("")(apps[i]) {
      ContainsEmpty(Lower(apps[i].name));
    }
  }

  /**
   * `filteredApps`: the whole list for an empty term, otherwise the apps whose name
   * contains the term, ignoring case. The shortcut for the empty term gives what the
   * filter would give.
   */
  function FilteredApps(apps: seq<Entry>, term: string): (r: seq<Entry>)
    ensures r == Filter(apps, Matcher(term))
  {
    if term == "" then
      EmptyTermMatchesAll(apps);
      FilterKeepsAll(apps, Matcher(""));
      apps
    else
      Filter(apps, Matcher(term))
  }

  /**
   * The filtered list keeps exactly the apps whose lower-cased name contains the
   * lower-cased term, and only deletes: order kept, nothing added.
   */
  lemma FilteredAppsKeepsMatches(apps: seq<Entry>, term: string)
    ensures var r := FilteredApps(apps, term);
      forall i :: 0 <= i < |r| ==> r[i] in apps && Contains(Lower(r[i].name), Lower(term))
    ensures var r := FilteredApps(apps, term);
      forall i :: 0 <= i < |apps| && Contains(Lower(apps[i].name), Lower(term)) ==> apps[i] in r
    ensures IsSubsequence(FilteredApps(apps, term), apps)
  {
    var r := FilteredApps(apps, term);
    assert forall i :: 0 <= i < |r| ==> Matcher(term)(r[i]);
    FilterIsSubsequence(apps, Matcher(term));
  }

  /** An empty search shows every app. */
  lemma FilteredAppsEmptyTerm(apps: seq<Entry>)
    ensures FilteredApps(apps, "") == apps
  {
  }

  /** The case of the search term does not matter. */
  lemma FilteredAppsIgnoresTermCase(apps: seq<Entry>, term: string, other: string)
    requires Lower(term) == Lower(other)
    ensures FilteredApps(apps, term) == FilteredApps(apps, other)
  {
    FilterAgreeing(apps, Matcher(term), Matcher(other));
  }

  /** Searching for a term and for its lower-case form gives the same list. */
  lemma FilteredAppsLowerTerm(apps: seq<Entry>, term: string)
    ensures FilteredApps(apps, term) == FilteredApps(apps, Lower(term))
  {
    LowerIdempotent(term);
    FilteredAppsIgnoresTermCase(apps, term, Lower(term));
  }

  /** An entry with its name lower-cased: two entries agree on it when they differ at most in the case of the name. */
  function Folded(e: Entry): Entry {
    e.(name := Lower(e.name))
  }

  /**
   * The case of the names does not matter: when two lists differ at most in the case
   * of the names, the filtered lists again differ at most in the case of the names,
   * entry by entry.
   */
  lemma FilteredAppsIgnoresNameCase(apps: seq<Entry>, renamed: seq<Entry>, term: string)
    requires |apps| == |renamed|
    requires forall i :: 0 <= i < |apps| ==> Folded(apps[i]) == Folded(renamed[i])
    ensures var r, r' := FilteredApps(apps, term), FilteredApps(renamed, term);
      |r| == |r'| && forall i :: 0 <= i < |r| ==> Folded(r[i]) == Folded(r'[i])
  {
    forall i | 0 <= i < |apps|
      ensures Matcher(term)(apps[i]) == Matcher(term)(renamed[i])
    {
      assert Lower(apps[i].name) == Folded(apps[i]).name;
      assert Lower(renamed[i].name) == Folded(renamed[i]).name;
    }
    FilterPairwise(apps, renamed, Matcher(term), Folded);
  }

  // ---------------------------------------------------------------------------
  // Icons

  const DefaultIcon: string := "📱"

  /** Two keywords and the icon they select. */
  datatype IconRule = IconRule(keyword: string, alternative: string, icon: string)

  /** The keyword pairs of `getAppIcon`'s if-chain, in its order. */
  const IconRules: seq<IconRule> := [
    IconRule("game", "jogo", "🎮"),
    IconRule("music", "musica", "🎵"),
    IconRule("video", "player", "🎬"),
    IconRule("photo", "camera", "📷"),
    IconRule("social", "chat", "💬"),
    IconRule("tool", "util", "🔧"),
    IconRule("browser", "web", "🌐"),
    IconRule("office", "work", "📄")
  ]

  /** `name.includes(keyword) || name.includes(alternative)`. */
  predicate RuleFires(rule: IconRule, name: string) {
    Contains(name, rule.keyword) || Contains(name, rule.alternative)
  }

  /** The if-chain over `rules`: the icon of the first rule that fires, else the default. */
  function FirstIcon(rules: seq<IconRule>, name: string): (icon: string)
    ensures icon == DefaultIcon || exists k :: 0 <= k < |rules| && RuleFires(rules[k], name) && icon == rules[k].icon
  {
    if rules == [] then DefaultIcon
    else if RuleFires(rules[0], name) then rules[0].icon
    else FirstIcon(rules[1..], name)
  }

  /** `getAppIcon`: the if-chain applied to the lower-cased name. */
  function AppIcon(appName: string): (icon: string)
    ensures icon == DefaultIcon ||
      exists k :: 0 <= k < |IconRules| && RuleFires(IconRules[k], Lower(appName)) && icon == IconRules[k].icon
  {
    FirstIcon(IconRules, Lower(appName))
  }

  /** The rule at position `k` selects its icon when it fires and no earlier rule does. */
  lemma {:induction false} FirstIconAt(rules: seq<IconRule>, name: string, k: nat)
    requires k < |rules| && RuleFires(rules[k], name)
    requires forall j :: 0 <= j < k ==> !RuleFires(rules[j], name)
    ensures FirstIcon(rules, name) == rules[k].icon
  {
    if k > 0 {
      FirstIconAt(rules[1..], name, k - 1);
    }
  }

  /**
   * When no rule carries the default icon, the lookup gives the default exactly
   * when no rule fires.
   */
  lemma {:induction false} FirstIconDefault(rules: seq<IconRule>, name: string)
    requires forall j :: 0 <= j < |rules| ==> rules[j].icon != DefaultIcon
    ensures FirstIcon(rules, name) == DefaultIcon <==>
      forall j :: 0 <= j < |rules| ==> !RuleFires(rules[j], name)
  {
    if rules != [] {
      FirstIconDefault(rules[1..], name);
      assert forall j :: 1 <= j < |rules| ==> rules[j] == rules[1..][j - 1];
    }
  }

  /** `getAppIcon` gives the icon of the first keyword pair found in the lower-cased name. */
  lemma AppIconFirstMatch(appName: string, k: nat)
    requires k < |IconRules| && RuleFires(IconRules[k], Lower(appName))
    requires forall j :: 0 <= j < k ==> !RuleFires(IconRules[j], Lower(appName))
    ensures AppIcon(appName) == IconRules[k].icon
  {
    FirstIconAt(IconRules, Lower(appName), k);
  }

  /** `getAppIcon` gives the phone icon exactly when no keyword occurs in the name. */
  lemma AppIconDefault(appName: string)
    ensures AppIcon(appName) == DefaultIcon <==>
      forall j :: 0 <= j < |IconRules| ==> !RuleFires(IconRules[j], Lower(appName))
  {
    forall j | 0 <= j < |IconRules| ensures IconRules[j].icon != DefaultIcon {
      assert IconRules[j].icon[0] != DefaultIcon[0];
    }
    FirstIconDefault(IconRules, Lower(appName));
  }

  /** A name with both `tool` and `game` gets the game icon: the `game` rule comes first. */
  lemma AppIconExample()
    ensures AppIcon("Tool Game") == "🎮"
  {
    var name := Lower("Tool Game");
    assert name[5..9] == "game" by {
      assert name[5] == 'g' && name[6] == 'a' && name[7] == 'm' && name[8] == 'e';
    }
    assert OccursAt("game", name, 5);
    AppIconFirstMatch("Tool Game", 0);
  }

  /** The icon depends only on the lower-cased name. */
  lemma AppIconIgnoresCase(appName: string)
    ensures AppIcon(appName) == AppIcon(Lower(appName))
  {
    LowerIdempotent(appName);
  }

  // ---------------------------------------------------------------------------
  // Loading the list

  /** What `fetch('/api/apks')` and `response.json()` did. */
  datatype FetchOutcome =
    | Delivered(data: seq<Entry>)  // an ok response and its parsed body
    | NotOk                        // a response with `ok` false
    | Thrown(message: string)      // `fetch` or `json()` threw

  /** The message `fetchApps` throws itself for a response that is not ok. */
  const LoadError: string := "Erro ao carregar apps"

  /** The component state of `App` that `fetchApps` and the search box change. */
  class AppState {
    var apps: seq<Entry>
    var loading: bool
    var error: Option<string>
    var searchTerm: string

    /** The initial `useState` values. */
    constructor ()
      ensures apps == [] && loading && error == None && searchTerm == ""
    {
      apps := [];
      loading := true;
      error := None;
      searchTerm := "";
    }

    /** The list on screen: `filteredApps` of the current state. */
    function Visible(): (r: seq<Entry>)
      reads this
      ensures IsSubsequence(r, apps)
    {
      FilterIsSubsequence(apps, Matcher(searchTerm));
      FilteredApps(apps, searchTerm)
    }

    /** `setLoading(true); setError(null)`. */
    method BeginFetch()
      modifies this`loading, this`error
      ensures loading && error == None
    {
      loading := true;
      error := None;
    }

    /** The rest of the `try`, the `catch` and the `finally`, given what the fetch did. */
    method CompleteFetch(outcome: FetchOutcome)
      modifies this`loading, this`error, this`apps
      ensures !loading
      ensures outcome.Delivered? ==> apps == outcome.data && error == old(error)
      ensures outcome.NotOk? ==> apps == old(apps) && error == Some(LoadError)
      ensures outcome.Thrown? ==> apps == old(apps) && error == Some(outcome.message)
    {
      match outcome {
        case Delivered(data) =>
          apps := data;
        case NotOk =>
          error := Some(LoadError);
        case Thrown(m) =>
          error := Some(m);
      }
      loading := false;
    }

    /**
     * `fetchApps`: afterwards nothing is loading; the list is replaced on success and
     * kept otherwise, and an error is shown exactly when the fetch failed.
     */
    method FetchApps(outcome: FetchOutcome)
      modifies this`loading, this`error, this`apps
      ensures !loading
      ensures error.None? <==> outcome.Delivered?
      ensures outcome.Delivered? ==> apps == outcome.data
      ensures outcome.NotOk? ==> apps == old(apps) && error == Some(LoadError)
      ensures outcome.Thrown? ==> apps == old(apps) && error == Some(outcome.message)
    {
      BeginFetch();
      CompleteFetch(outcome);
    }

    /** `setSearchTerm(e.target.value)`. */
    method SetSearchTerm(term: string)
      modifies this`searchTerm
      ensures searchTerm == term
    {
      searchTerm := term;
    }
  }
}
