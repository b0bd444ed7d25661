/** The main window `BrewAppStore`: its list of installed apps, refreshed
    from brew, "Uninstall Selected", and the install step of the search
    dialog. */
module Store {
  import opened Ordering
  import opened BrewCli
  import opened Reconcile
  import opened Batch

  /** The texts of some list rows, in row order. */
  function Texts(rows: seq<Item>): (texts: seq<string>)
    ensures |texts| == |rows|
    ensures forall i :: 0 <= i < |rows| ==> texts[i] == rows[i].text
  {
    seq(|rows|, i requires 0 <= i < |rows| => rows[i].text)
  }

  /** Whether the row at position `i` is checked. */
  function CheckedAt(rows: seq<Item>): (nat, string) -> bool
  {
    (i: nat, text: string) => i < |rows| && rows[i].checked
  }

  /** The texts of the checked rows, in row order. */
  function CheckedTexts(rows: seq<Item>): seq<string>
  {
    Picked(Texts(rows), CheckedAt(rows), true)
  }

  /** The loop over `item(i)` that collects `item.text()` of every checked row;
      `uninstall_selected` and the search dialog's `do_install` both run it. */
  method CollectChecked(rows: seq<Item>) returns (texts: seq<string>)
    ensures texts == CheckedTexts(rows)
    ensures forall x :: x in texts <==> exists i :: 0 <= i < |rows| && rows[i].checked && rows[i].text == x
  {
    texts := [];
    for i := 0 to |rows|
      invariant texts == Picked(Texts(rows)[..i], CheckedAt(rows), true)
    {
      assert Texts(rows)[..i + 1][..i] == Texts(rows)[..i];
      if rows[i].checked {
        texts := texts + [rows[i].text];
      }
    }
    assert Texts(rows)[..|rows|] == Texts(rows);
    forall x ensures x in texts <==> exists i :: 0 <= i < |rows| && rows[i].checked && rows[i].text == x {
      PickedMembership(Texts(rows), CheckedAt(rows), true, x);
    }
  }

  /** The rows `refresh_app_list` shows: every installed cask and formula
      once, in ascending order, each unchecked. */
  function InstalledRows(apps: (seq<string>, seq<string>)): (rows: seq<Item>)
    ensures forall i :: 0 <= i < |rows| ==> !rows[i].checked && rows[i].enabled
  {
    var names := Sorted(set x | x in apps.0 + apps.1);
    seq(|names|, i requires 0 <= i < |names| => Item(names[i], false, true))
  }

  /** The refreshed list reads `sorted(set(cask_apps + formula_apps))`: the
      installed names of both categories, each once, ascending. */
  lemma RefreshedListIsSortedInstalled(apps: (seq<string>, seq<string>))
    ensures Texts(InstalledRows(apps)) == Sorted(InstalledNames(apps))
    ensures Ascending(Texts(InstalledRows(apps)))
    ensures forall x :: x in Texts(InstalledRows(apps)) <==> x in apps.0 || x in apps.1
  {
    assert (set x | x in apps.0 + apps.1) == InstalledNames(apps);
    assert Texts(InstalledRows(apps)) == Sorted(InstalledNames(apps));
  }

  /** When `brew list --cask` fails, the list shows exactly the formulae
      (and symmetrically). */
  lemma RefreshAfterFailedListing(caskRun: ListRun, formulaRun: ListRun)
    ensures Texts(InstalledRows(GetBrewApps(ListFailed, formulaRun))) ==
      Sorted(set x | x in LinesOrEmpty(formulaRun))
    ensures Texts(InstalledRows(GetBrewApps(caskRun, ListFailed))) ==
      Sorted(set x | x in LinesOrEmpty(caskRun))
  {
    OnlyListingShown(([], LinesOrEmpty(formulaRun)), LinesOrEmpty(formulaRun));
    OnlyListingShown((LinesOrEmpty(caskRun), []), LinesOrEmpty(caskRun));
  }

  lemma OnlyListingShown(apps: (seq<string>, seq<string>), lines: seq<string>)
    requires apps == ([], lines) || apps == (lines, [])
    ensures Texts(InstalledRows(apps)) == Sorted(set x | x in lines)
  {
    RefreshedListIsSortedInstalled(apps);
    assert InstalledNames(apps) == set x | x in lines;
  }

  /** Whether the `i`-th uninstall is reported as an error by
      `uninstall_selected` as written: `not success` where `success` is the
      whole pair `uninstall_brew_app` returns. */
  function ReportedAsWritten(uninstall: (nat, string) -> UninstallRun): (nat, string) -> bool
  {
    (i: nat, app: string) => !Truth(PyPair(UninstallBrewApp(uninstall(i, app))))
  }

  /** Whether the `i`-th uninstall failed: `not success` applied to the
      success flag, the pair's first component. */
  function UninstallFailed(uninstall: (nat, string) -> UninstallRun): (nat, string) -> bool
  {
    (i: nat, app: string) => !Truth(PyBool(UninstallBrewApp(uninstall(i, app)).0))
  }

  /** As written, no uninstall is ever reported as an error, whatever brew
      answers. */
  lemma ErrorsAsWrittenAlwaysEmpty(apps: seq<string>, uninstall: (nat, string) -> UninstallRun)
    ensures Picked(apps, ReportedAsWritten(uninstall), true) == []
  {
    forall i | 0 <= i < |apps| ensures ReportedAsWritten(uninstall)(i, apps[i]) != true {
      PairAlwaysTrue(uninstall(i, apps[i]));
    }
    PickedNone(apps, ReportedAsWritten(uninstall), true);
  }

  /** An uninstall that brew refuses goes unreported: the failure is there,
      the error list is empty. */
  lemma FailedUninstallUnreported()
    ensures var uninstall := (i: nat, app: string) => Exited(1, "");
      Picked(["wget"], UninstallFailed(uninstall), true) == ["wget"] &&
      Picked(["wget"], ReportedAsWritten(uninstall), true) == []
  {
    var uninstall := (i: nat, app: string) => Exited(1, "");
    assert ["wget"][..0] == [];
    assert UninstallBrewApp(uninstall(0, "wget")) == (false, "");
    assert UninstallFailed(uninstall)(0, "wget");
    ErrorsAsWrittenAlwaysEmpty(["wget"], uninstall);
  }

  /** The error loop of `uninstall_selected` as intended: an app is an error
      exactly when its uninstall failed. */
  method CollectUninstallFailures(apps: seq<string>, uninstall: (nat, string) -> UninstallRun)
    returns (errors: seq<string>)
    ensures errors == Picked(apps, UninstallFailed(uninstall), true)
    ensures forall x :: x in errors <==>
      exists i :: 0 <= i < |apps| && apps[i] == x && !UninstallBrewApp(uninstall(i, x)).0
  {
    errors := [];
    for i := 0 to |apps|
      invariant errors == Picked(apps[..i], UninstallFailed(uninstall), true)
    {
      assert apps[..i + 1][..i] == apps[..i];
      var success := UninstallBrewApp(uninstall(i, apps[i]));
      if !Truth(PyBool(success.0)) {
        errors := errors + [apps[i]];
      }
    }
    assert apps[..|apps|] == apps;
    forall x ensures x in errors <==>
      exists i :: 0 <= i < |apps| && apps[i] == x && !UninstallBrewApp(uninstall(i, x)).0
    {
      PickedMembership(apps, UninstallFailed(uninstall), true, x);
    }
  }

  /** What `uninstall_selected` tells the user. */
  datatype UninstallNotice = NoAppsToUninstall | FailedToUninstall(errors: seq<string>) | AppsUninstalled

  /** The results list of the search dialog: one unchecked row per result, in
      brew's order. */
  function SearchRows(results: seq<string>): (rows: seq<Item>)
    ensures Texts(rows) == results
    ensures forall i :: 0 <= i < |rows| ==> !rows[i].checked
  {
    seq(|results|, i requires 0 <= i < |results| => Item(results[i], false, true))
  }

  /** What `search_apps` shows: nothing when the query dialog was cancelled
      or left empty, a notice when brew found nothing, else the results. */
  datatype SearchOutcome = NoSearch | NoAppsFound | SearchResults(rows: seq<Item>)

  /** `search_apps` up to the results dialog. */
  function SearchApps(accepted: bool, query: string, searchRun: ListRun): (outcome: SearchOutcome)
    ensures outcome.NoSearch? <==> !accepted || query == []
    ensures outcome.NoAppsFound? <==> accepted && query != [] && SearchBrewApps(searchRun) == []
    ensures outcome.SearchResults? <==> accepted && query != [] && SearchBrewApps(searchRun) != []
    ensures outcome.SearchResults? ==> Texts(outcome.rows) == SearchBrewApps(searchRun)
    ensures outcome.SearchResults? ==> forall i :: 0 <= i < |outcome.rows| ==> !outcome.rows[i].checked
  {
    if !accepted || query == [] then NoSearch
    else
      var results := SearchBrewApps(searchRun);
      if results == [] then NoAppsFound else SearchResults(SearchRows(results))
  }

  /** `do_install` of the search dialog: the checked results, in list order,
      start an installer; none checked gives a notice. */
  method SearchDoInstall(rows: seq<Item>) returns (start: InstallStart)
    ensures CheckedTexts(rows) == [] ==> start == NoAppsSelected
    ensures CheckedTexts(rows) != [] ==> start == StartInstaller(CheckedTexts(rows))
  {
    var toInstall := CollectChecked(rows);
    if toInstall == [] {
      return NoAppsSelected;
    }
    start := StartInstaller(toInstall);
  }

  /** Whatever the user checks in the search dialog, only search results are
      installed. */
  lemma SearchSelectionFromResults(results: seq<string>, rows: seq<Item>)
    requires SameRows(rows, SearchRows(results))
    ensures forall x :: x in CheckedTexts(rows) ==> x in results
  {
    forall x | x in CheckedTexts(rows) ensures x in results {
      PickedMembership(Texts(rows), CheckedAt(rows), true, x);
      var i :| 0 <= i < |rows| && Texts(rows)[i] == x && CheckedAt(rows)(i, x);
      assert results[i] == SearchRows(results)[i].text;
    }
  }

  /** The main window. Its list widget is `rows`. */
  class AppStore {
    var rows: seq<Item>

    /** `__init__` fills the list with `refresh_app_list`. */
    constructor (caskRun: ListRun, formulaRun: ListRun)
      ensures rows == InstalledRows(GetBrewApps(caskRun, formulaRun))
    {
      rows := [];
      new;
      RefreshAppList(caskRun, formulaRun);
    }

    /** `refresh_app_list`: clear the list, then add one unchecked row per
        installed app, in ascending order. */
    method RefreshAppList(caskRun: ListRun, formulaRun: ListRun)
      modifies this
      ensures rows == InstalledRows(GetBrewApps(caskRun, formulaRun))
    {
      rows := [];
      var apps := GetBrewApps(caskRun, formulaRun);
      var allApps := Sorted(set x | x in apps.0 + apps.1);
      for i := 0 to |allApps|
        invariant |rows| == i
        invariant forall k :: 0 <= k < i ==> rows[k] == Item(allApps[k], false, true)
      {
        rows := rows + [Item(allApps[i], false, true)];
      }
    }

    /** The user ticks or clears the check box of row `i`. */
    method SetChecked(i: nat, checked: bool)
      requires i < |rows|
      modifies this
      ensures rows == old(rows)[i := old(rows)[i].(checked := checked)]
    {
      rows := rows[i := rows[i].(checked := checked)];
    }

    /** `uninstall_selected`: one `brew uninstall --force` per checked row, in
        list order (`attempted`); then the notice and a refresh from the
        listings taken afterwards. As written, the error list stays empty
        whatever brew answers, so the notice is always that the apps were
        uninstalled. With nothing checked there is only a notice. */
    method UninstallSelected(uninstall: (nat, string) -> UninstallRun, caskRun: ListRun, formulaRun: ListRun)
      returns (attempted: seq<string>, notice: UninstallNotice)
      modifies this
      ensures attempted == CheckedTexts(old(rows))
      ensures attempted == [] ==> notice == NoAppsToUninstall && rows == old(rows)
      ensures attempted != [] ==> notice == AppsUninstalled
      ensures attempted != [] ==> rows == InstalledRows(GetBrewApps(caskRun, formulaRun))
    {
      var toUninstall := CollectChecked(rows);
      if toUninstall == [] {
        return [], NoAppsToUninstall;
      }
      var errors := [];
      attempted := [];
      for i := 0 to |toUninstall|
        invariant attempted == toUninstall[..i]
        invariant errors == Picked(toUninstall[..i], ReportedAsWritten(uninstall), true)
      {
        assert toUninstall[..i + 1][..i] == toUninstall[..i];
        var app := toUninstall[i];
        var success := UninstallBrewApp(uninstall(i, app));
        attempted := attempted + [app];
        if !Truth(PyPair(success)) {
          errors := errors + [app];
        }
      }
      assert toUninstall[..|toUninstall|] == toUninstall;
      ErrorsAsWrittenAlwaysEmpty(toUninstall, uninstall);
      if errors != [] {
        notice := FailedToUninstall(errors);
      } else {
        notice := AppsUninstalled;
      }
      RefreshAppList(caskRun, formulaRun);
    }
  }
}
