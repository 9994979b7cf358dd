/** What the Install/Download button of a program card does: the first source whose kind is
    checked is chosen, and its kind decides which installer runs (main.py, `_draw_page`). */
module Dispatch {
  import opened Wrappers
  import opened Catalog

  /** The three things a button can start. Each carries the package id or URL of its source and
      the program name used in the messages shown to the user. */
  datatype Action =
    | WingetInstall(id: string, name: string)
    | ChocoInstall(id: string, name: string)
    | DownloadAndRun(url: string, name: string)

  /** The first source in the entry's order whose kind is checked, if any. */
  function Select(sources: seq<Source>, enabled: set<Kind>): (r: Option<Source>)
    ensures r.Some? <==> exists s :: s in sources && s.Kind() in enabled
    ensures r.Some? ==> exists i :: 0 <= i < |sources| && sources[i] == r.value && r.value.Kind() in enabled
                                    && forall j :: 0 <= j < i ==> sources[j].Kind() !in enabled
  {
    if sources == [] then None
    else if sources[0].Kind() in enabled then Some(sources[0])
    else
      var r := Select(sources[1..], enabled);
      SelectStep(sources, enabled, r);
      r
  }

  lemma SelectStep(sources: seq<Source>, enabled: set<Kind>, r: Option<Source>)
    requires sources != [] && sources[0].Kind() !in enabled
    requires r.Some? <==> exists s :: s in sources[1..] && s.Kind() in enabled
    requires r.Some? ==> exists i :: 0 <= i < |sources[1..]| && sources[1..][i] == r.value && r.value.Kind() in enabled
                                     && forall j :: 0 <= j < i ==> sources[1..][j].Kind() !in enabled
    ensures r.Some? <==> exists s :: s in sources && s.Kind() in enabled
    ensures r.Some? ==> exists i :: 0 <= i < |sources| && sources[i] == r.value && r.value.Kind() in enabled
                                    && forall j :: 0 <= j < i ==> sources[j].Kind() !in enabled
  {
    if r.Some? {
      var i :| 0 <= i < |sources[1..]| && sources[1..][i] == r.value && r.value.Kind() in enabled
               && forall j :: 0 <= j < i ==> sources[1..][j].Kind() !in enabled;
      assert sources[i + 1] == r.value;
      assert forall j :: 1 <= j < i + 1 ==> sources[j] == sources[1..][j - 1];
    }
    if exists s :: s in sources && s.Kind() in enabled {
      var s :| s in sources && s.Kind() in enabled;
      assert s in sources[1..];
    }
  }

  /** The action for a selected source of a program. */
  function ActionFor(p: Program, s: Source): Action {
    match s
    case WingetId(id) => WingetInstall(id, p.name)
    case ChocoId(id) => ChocoInstall(id, p.name)
    case InstallerUrl(url) => DownloadAndRun(url, p.name)
  }

  /** The button's action. `None` stands for a card with no usable source: the callback then
      fails on the missing source and starts nothing. */
  function ButtonAction(p: Program, enabled: set<Kind>): (r: Option<Action>)
    ensures r.Some? <==> exists s :: s in p.sources && s.Kind() in enabled
    ensures r.Some? ==> SourceOf(r.value) == Select(p.sources, enabled).value && r.value.name == p.name
  {
    match Select(p.sources, enabled)
    case Some(s) => Some(ActionFor(p, s))
    case None => None
  }

  /** The source an action was made from. */
  function SourceOf(a: Action): Source {
    match a
    case WingetInstall(id, _) => WingetId(id)
    case ChocoInstall(id, _) => ChocoId(id)
    case DownloadAndRun(url, _) => InstallerUrl(url)
  }

  /** Dispatch loses nothing: the action gives back the source it was made from and the name of
      the program, so the three kinds lead to three different actions. */
  lemma ActionRoundTrip(p: Program, s: Source)
    ensures SourceOf(ActionFor(p, s)) == s
    ensures ActionFor(p, s).name == p.name
    ensures ActionFor(p, s).WingetInstall? <==> s.Kind() == Winget
    ensures ActionFor(p, s).ChocoInstall? <==> s.Kind() == Choco
    ensures ActionFor(p, s).DownloadAndRun? <==> s.Kind() == Installer
  {
  }

  /** Because an entry's sources follow the fixed order, the chosen source is the most preferred
      checked kind the entry offers. */
  lemma SelectPrefersEarlierKinds(sources: seq<Source>, enabled: set<Kind>, s: Source)
    requires InPreferenceOrder(sources)
    requires s in sources && s.Kind() in enabled
    ensures Select(sources, enabled).Some?
    ensures Select(sources, enabled).value.Kind().Rank() <= s.Kind().Rank()
  {
    var r := Select(sources, enabled).value;
    var i :| 0 <= i < |sources| && sources[i] == r && r.Kind() in enabled
             && forall j :: 0 <= j < i ==> sources[j].Kind() !in enabled;
    var k :| 0 <= k < |sources| && sources[k] == s;
    assert i <= k;
  }
}
