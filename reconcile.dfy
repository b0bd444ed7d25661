/** The "Import & Install from JSON" workflow: the imported names are
    compared with what brew reports as installed, one confirm-list row is
    built per imported name, and "Install Selected" collects the rows to
    hand to the installer. */
module Reconcile {
  import opened Ordering
  import opened Text
  import opened BrewCli

  datatype Option<T> = None | Some(value: T)

  /** An import (or export) file as parsed: its "cask" and "formula" arrays,
      each of which may be absent. */
  datatype ImportDoc = ImportDoc(cask: Option<seq<string>>, formula: Option<seq<string>>)

  /** `data.get(key, [])`. */
  function ArrayOrEmpty(field: Option<seq<string>>): seq<string>
  {
    match field
    case Some(names) => names
    case None => []
  }

  /** `set(data.get("cask", [])) | set(data.get("formula", []))`: a name is
      imported exactly when one of the two arrays lists it; an absent array
      lists nothing, and repetitions collapse. */
  function ImportedNames(doc: ImportDoc): (names: set<string>)
    ensures forall x :: x in names <==>
      (doc.cask.Some? && x in doc.cask.value) || (doc.formula.Some? && x in doc.formula.value)
  {
    (set x | x in ArrayOrEmpty(doc.cask)) + (set x | x in ArrayOrEmpty(doc.formula))
  }

  /** `set(cask_apps) | set(formula_apps)`: the installed casks and formulae
      together, each name once. */
  function InstalledNames(apps: (seq<string>, seq<string>)): (names: set<string>)
    ensures forall x :: x in names <==> x in apps.0 || x in apps.1
  {
    (set x | x in apps.0) + (set x | x in apps.1)
  }

  /** A row of a list widget: its text, its check box, and whether it is
      enabled. */
  datatype Item = Item(text: string, checked: bool, enabled: bool)

  /** The text of a confirm-list row: the name, followed by the marker when
      the app is already installed. */
  function Label(name: string, installed: bool): string
  {
    if installed then name + Marker else name
  }

  /** The confirm-list row for one imported name: an app that is already
      installed is unchecked and disabled, any other app is checked. */
  function ConfirmItem(name: string, installed: set<string>): Item
  {
    var already := name in installed;
    Item(Label(name, already), !already, !already)
  }

  /** The rows of the "Confirm Apps to Install" dialog, one per imported
      name in ascending order. */
  function ConfirmList(imported: set<string>, installed: set<string>): (items: seq<Item>)
    ensures |items| == |imported|
    ensures forall i :: 0 <= i < |items| ==>
      (items[i].enabled <==> Sorted(imported)[i] !in installed) && items[i].checked == items[i].enabled
    ensures forall i :: 0 <= i < |items| ==>
      items[i].text == Label(Sorted(imported)[i], !items[i].enabled)
  {
    var names := Sorted(imported);
    seq(|names|, i requires 0 <= i < |names| => ConfirmItem(names[i], installed))
  }

  /** No imported name contains the marker text itself. */
  predicate MarkerFree(names: set<string>)
  {
    forall x :: x in names ==> !ContainsMarker(x)
  }

  /** Taking the marker off each row's text gives back the imported names,
      each once and in ascending order. */
  lemma ConfirmLabelsDecode(imported: set<string>, installed: set<string>)
    requires MarkerFree(imported)
    ensures var items := ConfirmList(imported, installed);
      |items| == |imported| &&
      forall i :: 0 <= i < |items| ==> RemoveMarker(items[i].text) == Sorted(imported)[i]
  {
    var items := ConfirmList(imported, installed);
    var names := Sorted(imported);
    forall i | 0 <= i < |items| ensures RemoveMarker(items[i].text) == names[i] {
      assert names[i] in names;
      if !items[i].enabled {
        RemoveMarkerAfterAppend(names[i]);
      } else {
        RemoveMarkerWithoutMarker(names[i]);
      }
    }
  }

  /** The names collected from the enabled, checked rows, in row order, each
      row's text turned into a name by `decode`. */
  function SelectionBy(items: seq<Item>, decode: string -> string): (selected: seq<string>)
    ensures |selected| <= |items|
    decreases |items|
  {
    if items == [] then []
    else
      var n := |items| - 1;
      var it := items[n];
      SelectionBy(items[..n], decode) + (if it.enabled && it.checked then [decode(it.text)] else [])
  }

  /** For any check state, a name is selected exactly when some enabled,
      checked row decodes to it. */
  lemma {:induction false} SelectionByMembership(items: seq<Item>, decode: string -> string, x: string)
    ensures x in SelectionBy(items, decode) <==>
      exists i :: 0 <= i < |items| && items[i].enabled && items[i].checked && decode(items[i].text) == x
    decreases |items|
  {
    if items != [] {
      var n := |items| - 1;
      SelectionByMembership(items[..n], decode, x);
      if exists i :: 0 <= i < |items| && items[i].enabled && items[i].checked && decode(items[i].text) == x {
        var i :| 0 <= i < |items| && items[i].enabled && items[i].checked && decode(items[i].text) == x;
        if i < n {
          assert items[..n][i] == items[i];
        }
      }
      if exists i :: 0 <= i < n && items[..n][i].enabled && items[..n][i].checked && decode(items[..n][i].text) == x {
        var i :| 0 <= i < n && items[..n][i].enabled && items[..n][i].checked && decode(items[..n][i].text) == x;
        assert items[i] == items[..n][i];
      }
    }
  }

  /** The names "Install Selected" collects: the text of every enabled,
      checked row, in row order, with the marker replaced by nothing. */
  function Selection(items: seq<Item>): (selected: seq<string>)
    ensures |selected| <= |items|
  {
    SelectionBy(items, RemoveMarker)
  }

  /** A row's text taken as it stands. */
  function KeepText(text: string): string
  {
    text
  }

  /** The selection as intended: an enabled row carries no marker, so its
      text already is the name. */
  function IntendedSelection(items: seq<Item>): (selected: seq<string>)
    ensures |selected| <= |items|
  {
    SelectionBy(items, KeepText)
  }

  /** What pressing "Install Selected" does: nothing but a notice when no
      app is selected, otherwise start a `BrewInstaller` on the selection. */
  datatype InstallStart = NoAppsSelected | StartInstaller(apps: seq<string>)

  /** `do_install` of the import dialog. */
  method ImportDoInstall(items: seq<Item>) returns (start: InstallStart)
    ensures Selection(items) == [] ==> start == NoAppsSelected
    ensures Selection(items) != [] ==> start == StartInstaller(Selection(items))
  {
    var selected := [];
    for i := 0 to |items|
      invariant selected == Selection(items[..i])
    {
      assert items[..i + 1][..i] == items[..i];
      var it := items[i];
      if it.enabled && it.checked {
        selected := selected + [RemoveMarker(it.text)];
      }
    }
    assert items[..|items|] == items;
    if selected == [] {
      return NoAppsSelected;
    }
    start := StartInstaller(selected);
  }

  /** The user may toggle check boxes but nothing else: same rows, same
      texts, same enabled flags. */
  predicate SameRows(items: seq<Item>, shown: seq<Item>)
  {
    |items| == |shown| &&
    forall i :: 0 <= i < |items| ==> items[i].text == shown[i].text && items[i].enabled == shown[i].enabled
  }

  /** Every enabled row is checked and every disabled row unchecked, as the
      dialog first shows them. */
  predicate InitialChecks(items: seq<Item>)
  {
    forall i :: 0 <= i < |items| ==> items[i].checked == items[i].enabled
  }

  /** `decode` turns the label of every imported name that is not installed,
      which is the bare name, back into that name. */
  predicate DecodesNewNames(imported: set<string>, installed: set<string>, decode: string -> string)
  {
    forall x :: x in imported && x !in installed ==> decode(x) == x
  }

  /** Adding one row to the end adds at most its name to the selection. */
  lemma SelectionStep(items: seq<Item>, n: nat, decode: string -> string)
    requires n < |items|
    ensures SelectionBy(items[..n + 1], decode) == SelectionBy(items[..n], decode) +
      (if items[n].enabled && items[n].checked then [decode(items[n].text)] else [])
  {
    assert items[..n + 1][..n] == items[..n];
  }

  /** An enabled confirm-list row shows the bare name of an app that is not
      installed. */
  lemma EnabledRowName(imported: set<string>, installed: set<string>, items: seq<Item>, n: nat, decode: string -> string)
    requires DecodesNewNames(imported, installed, decode)
    requires SameRows(items, ConfirmList(imported, installed))
    requires n < |items| && items[n].enabled
    ensures decode(items[n].text) == Sorted(imported)[n]
    ensures Sorted(imported)[n] !in installed
  {
    assert Sorted(imported)[n] in Sorted(imported);
  }

  lemma {:induction false} SelectionPrefixSafe(imported: set<string>, installed: set<string>, items: seq<Item>, k: nat, decode: string -> string)
    requires DecodesNewNames(imported, installed, decode)
    requires SameRows(items, ConfirmList(imported, installed))
    requires k <= |items|
    ensures Ascending(SelectionBy(items[..k], decode))
    ensures forall x :: x in SelectionBy(items[..k], decode) ==> x in Sorted(imported)[..k] && x !in installed
  {
    var names := Sorted(imported);
    if k > 0 {
      var n := k - 1;
      SelectionPrefixSafe(imported, installed, items, n, decode);
      SelectionStep(items, n, decode);
      var prev := SelectionBy(items[..n], decode);
      PrefixStep(names, n);
      if items[n].enabled && items[n].checked {
        EnabledRowName(imported, installed, items, n, decode);
        PrefixBelow(names, n);
        AscendingAppend(prev, names[n]);
      }
    }
  }

  lemma {:induction false} SelectionPrefixComplete(imported: set<string>, installed: set<string>, items: seq<Item>, k: nat, decode: string -> string)
    requires DecodesNewNames(imported, installed, decode)
    requires SameRows(items, ConfirmList(imported, installed))
    requires InitialChecks(items)
    requires k <= |items|
    ensures forall j :: 0 <= j < k && Sorted(imported)[j] !in installed ==> Sorted(imported)[j] in SelectionBy(items[..k], decode)
  {
    var names := Sorted(imported);
    if k > 0 {
      var n := k - 1;
      SelectionPrefixComplete(imported, installed, items, n, decode);
      SelectionStep(items, n, decode);
      if names[n] !in installed {
        assert items[n].enabled && items[n].checked;
        EnabledRowName(imported, installed, items, n, decode);
      }
    }
  }

  /** Whatever the user checks, the selection holds only imported names that
      are not installed, ascending and so each once. */
  lemma SelectionByNeverInstalled(imported: set<string>, installed: set<string>, items: seq<Item>, decode: string -> string)
    requires DecodesNewNames(imported, installed, decode)
    requires SameRows(items, ConfirmList(imported, installed))
    ensures Ascending(SelectionBy(items, decode))
    ensures forall x :: x in SelectionBy(items, decode) ==> x in imported && x !in installed
  {
    SelectionPrefixSafe(imported, installed, items, |items|, decode);
    assert items[..|items|] == items;
    forall x | x in SelectionBy(items, decode) ensures x in imported {
      assert x in Sorted(imported)[..|items|];
    }
  }

  /** With the check boxes as first shown, the selection is exactly the new
      apps in ascending order. */
  lemma InitialSelectionByIsNewApps(imported: set<string>, installed: set<string>, decode: string -> string)
    requires DecodesNewNames(imported, installed, decode)
    ensures SelectionBy(ConfirmList(imported, installed), decode) == Sorted(imported - installed)
  {
    var items := ConfirmList(imported, installed);
    var names := Sorted(imported);
    SelectionByNeverInstalled(imported, installed, items, decode);
    SelectionPrefixComplete(imported, installed, items, |items|, decode);
    assert items[..|items|] == items;
    forall x | x in imported - installed ensures x in SelectionBy(items, decode) {
      var j :| 0 <= j < |names| && names[j] == x;
    }
    SortedCharacterized(imported - installed, SelectionBy(items, decode));
  }

  /** Taking the marker text out of a name that does not contain it leaves
      the name as it is. */
  lemma MarkerFreeDecodes(imported: set<string>, installed: set<string>)
    requires MarkerFree(imported)
    ensures DecodesNewNames(imported, installed, RemoveMarker)
  {
    forall x | x in imported && x !in installed ensures RemoveMarker(x) == x {
      RemoveMarkerWithoutMarker(x);
    }
  }

  /** Whatever the user checks, "Install Selected" never hands the installer
      an app that is already installed or was not imported, and never the
      same app twice. */
  lemma SelectionNeverInstalled(imported: set<string>, installed: set<string>, items: seq<Item>)
    requires MarkerFree(imported)
    requires SameRows(items, ConfirmList(imported, installed))
    ensures Ascending(Selection(items))
    ensures forall x :: x in Selection(items) ==> x in imported && x !in installed
  {
    MarkerFreeDecodes(imported, installed);
    SelectionByNeverInstalled(imported, installed, items, RemoveMarker);
  }

  /** With the check boxes as the dialog first shows them, the selection is
      `sorted(imported - installed)`. */
  lemma InitialSelectionIsNewApps(imported: set<string>, installed: set<string>)
    requires MarkerFree(imported)
    ensures Selection(ConfirmList(imported, installed)) == Sorted(imported - installed)
  {
    MarkerFreeDecodes(imported, installed);
    InitialSelectionByIsNewApps(imported, installed, RemoveMarker);
  }

  /** The intended selection, for any imported names: whatever the user
      checks, only imported apps that are not installed, each once. */
  lemma IntendedSelectionNeverInstalled(imported: set<string>, installed: set<string>, items: seq<Item>)
    requires SameRows(items, ConfirmList(imported, installed))
    ensures Ascending(IntendedSelection(items))
    ensures forall x :: x in IntendedSelection(items) ==> x in imported && x !in installed
  {
    SelectionByNeverInstalled(imported, installed, items, KeepText);
  }

  /** The intended selection, for any imported names, with the check boxes
      as first shown: `sorted(imported - installed)`. */
  lemma IntendedInitialSelectionIsNewApps(imported: set<string>, installed: set<string>)
    ensures IntendedSelection(ConfirmList(imported, installed)) == Sorted(imported - installed)
  {
    InitialSelectionByIsNewApps(imported, installed, KeepText);
  }

  /** A single new app is selected under its name with the marker text
      removed, whatever that name contains. */
  lemma SingleNewNameSelection(name: string, installed: set<string>)
    requires name !in installed
    ensures Selection(ConfirmList({name}, installed)) == [RemoveMarker(name)]
  {
    SortedCharacterized({name}, [name]);
    var items := ConfirmList({name}, installed);
    assert items[0] == Item(name, true, true);
    SelectionStep(items, 0, RemoveMarker);
    assert items[..1] == items;
  }

  /** The marker text inside an imported name is removed too: a new app
      named "x (already installed)" is selected as "x". */
  lemma MarkerInNameIsRemoved()
    ensures RemoveMarker("x" + Marker) == "x"
    ensures Selection(ConfirmList({"x" + Marker}, {})) == ["x"]
  {
    var name := "x" + Marker;
    assert name[..|Marker|] != Marker by { assert name[0] != Marker[0]; }
    assert name[1..] == Marker;
    assert Marker[..|Marker|] == Marker && Marker[|Marker|..] == [];
    assert RemoveMarker(Marker) == [];
    SingleNewNameSelection(name, {});
  }

  /** As written, an installed app can reach the installer: with "x"
      installed, importing "x (already installed)" selects "x". */
  lemma InstalledNameReachesInstaller()
    ensures "x" in InstalledNames((["x"], []))
    ensures Selection(ConfirmList({"x" + Marker}, InstalledNames((["x"], [])))) == ["x"]
  {
    var name := "x" + Marker;
    var installed := InstalledNames((["x"], []));
    assert |name| != 1;
    assert name !in installed;
    MarkerInNameIsRemoved();
    SingleNewNameSelection(name, installed);
  }

  /** The export file as `export_installed_json` writes it: both arrays,
      holding the installed casks and formulae. */
  function ExportDoc(apps: (seq<string>, seq<string>)): (doc: ImportDoc)
    ensures ImportedNames(doc) == InstalledNames(apps)
  {
    ImportDoc(Some(apps.0), Some(apps.1))
  }

  /** Importing a file just exported, while the installed apps are the same,
      offers nothing to install: every row is disabled and unchecked. */
  lemma ExportThenImportOffersNothing(apps: (seq<string>, seq<string>), items: seq<Item>)
    requires SameRows(items, ConfirmList(ImportedNames(ExportDoc(apps)), InstalledNames(apps)))
    ensures forall i :: 0 <= i < |items| ==> !items[i].enabled
    ensures Selection(items) == []
  {
    var imported := ImportedNames(ExportDoc(apps));
    var shown := ConfirmList(imported, InstalledNames(apps));
    forall i | 0 <= i < |items| ensures !items[i].enabled {
      assert Sorted(imported)[i] in Sorted(imported);
    }
    NothingEnabledSelectsNothing(items);
  }

  lemma {:induction false} NothingEnabledSelectsNothing(items: seq<Item>)
    requires forall i :: 0 <= i < |items| ==> !items[i].enabled
    ensures Selection(items) == []
    decreases |items|
  {
    if items != [] {
      var n := |items| - 1;
      var prefix := items[..n];
      forall i | 0 <= i < |prefix| ensures !prefix[i].enabled {
        assert prefix[i] == items[i];
      }
      NothingEnabledSelectsNothing(prefix);
      assert !items[n].enabled;
    }
  }

  /** With firefox installed as a cask, importing firefox and vscode shows
      firefox marked, unchecked and disabled, then vscode checked. */
  lemma FirefoxInstalledScenario()
    ensures ConfirmList({"firefox", "vscode"}, InstalledNames((["firefox"], []))) ==
      [Item("firefox" + Marker, false, false), Item("vscode", true, true)]
  {
    assert LessEq("firefox", "vscode");
    assert Ascending(["firefox", "vscode"]);
    SortedCharacterized({"firefox", "vscode"}, ["firefox", "vscode"]);
    assert "vscode" !in InstalledNames((["firefox"], []));
  }

  /** A name listed twice collapses to one imported name. */
  lemma RepeatedNameScenario()
    ensures ImportedNames(ImportDoc(Some([]), Some(["wget", "wget"]))) == {"wget"}
  {
  }

  /** `import_and_install_json` up to the dialog: a file that could not be
      read aborts the import; otherwise the dialog shows the confirm list of
      the imported names against the installed ones. */
  function ImportDialog(parsed: Option<ImportDoc>, caskRun: ListRun, formulaRun: ListRun): (dialog: Option<seq<Item>>)
    ensures parsed.None? <==> dialog.None?
    ensures parsed.Some? ==> |dialog.value| == |ImportedNames(parsed.value)|
    ensures parsed.Some? ==>
      dialog.value == ConfirmList(ImportedNames(parsed.value), InstalledNames(GetBrewApps(caskRun, formulaRun)))
  {
    match parsed
    case None => None
    case Some(doc) => Some(ConfirmList(ImportedNames(doc), InstalledNames(GetBrewApps(caskRun, formulaRun))))
  }
}
