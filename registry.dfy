/**
 * `MultipleDataframeBrowser` (df_browse/dataframe_browser.py): the table browsers under
 * their names, the name of the active one, default names for tables added without one,
 * renaming and switching the active browser.
 */
module Registry {
  import opened Wrappers
  import opened Text
  import opened Tables
  import opened History
  import opened TableBrowser

  /** The observer id standing for the terminal frame's `update_view`, which `add_df` registers. */
  const FrameRedraw: nat := 0

  /** Python truthiness of an optional name: present and not empty. */
  predicate Truthy(name: Option<string>) {
    name.Some? && name.value != ""
  }

  /** `'df' + str(i)`. */
  function DefaultName(i: nat): string {
    "df" + NatToString(i)
  }

  /** A default name has no surrounding white space, so `strip` leaves it as it is. */
  lemma DefaultNameStripped(i: nat)
    ensures Strip(DefaultName(i)) == DefaultName(i)
  {
    var s := DefaultName(i);
    var digits := NatToString(i);
    assert s[|s| - 1] == digits[|digits| - 1];
    assert !IsSpace(s[|s| - 1]);
    assert TrimStart(s) == s;
  }

  /** `name` is the name `add_df`'s loop reaches: the first `'df' + str(i)` with `i >= |names|` not in use. */
  ghost predicate FirstFreeDefault(names: set<string>, start: nat, name: string) {
    exists i: nat :: start <= i && name == DefaultName(i) && name !in names
      && forall j: nat :: start <= j < i ==> DefaultName(j) in names
  }

  /** A bound on the lengths of a finite set of names. */
  lemma LengthBound(names: set<string>) returns (bound: nat)
    ensures forall s :: s in names ==> |s| <= bound
    decreases names
  {
    if names == {} {
      return 0;
    }
    var s :| s in names;
    var rest := LengthBound(names - {s});
    bound := if |s| > rest then |s| else rest;
  }

  /** What `rename_browser` did: moved the entry, nothing, or raised (the assert, or the missing key). */
  datatype RenameOutcome = Renamed | Unchanged | AssertionFailed | MissingName

  class MultipleDataframeBrowser {
    var browsers: map<string, DataframeTableBrowser>
    var activeBrowserName: Option<string>

    /** The active name, when there is one, names a browser. */
    predicate Valid()
      reads this
    {
      activeBrowserName.Some? ==> activeBrowserName.value in browsers
    }

    constructor()
      ensures browsers == map[] && activeBrowserName == None && Valid()
    {
      browsers := map[];
      activeBrowserName := None;
    }

    /** The loop of `add_df`: count up from the number of browsers until a default name is free. */
    method GenerateName() returns (name: string)
      ensures name !in browsers && Strip(name) == name
      ensures FirstFreeDefault(browsers.Keys, |browsers|, name)
    {
      ghost var bound := LengthBound(browsers.Keys);
      ghost var limit := if |browsers| > Pow10(bound) then |browsers| else Pow10(bound);
      var i := |browsers|;
      var found: Option<string> := None;
      while !Truthy(found)
        invariant |browsers| <= i <= limit
        invariant forall j: nat :: |browsers| <= j < i ==> DefaultName(j) in browsers
        invariant found.Some? ==> found.value == DefaultName(i) && found.value !in browsers
        decreases limit - i, if Truthy(found) then 0 else 1
      {
        found := Some("df" + NatToString(i));
        if found.value in browsers {
          assert i < Pow10(bound) by {
            if i >= Pow10(bound) {
              NatToStringLength(i, bound);
              assert false;
            }
          }
          i := i + 1;
          found := None;
        }
      }
      name := found.value;
      DefaultNameStripped(i);
    }

    /**
     * `add_df`: a table added under a name (stripped) or under the first free default name
     * gets a new browser, which also tells the terminal frame of its changes; the first name
     * added while none is active becomes active. An existing browser of the same name is replaced.
     */
    method AddDf(t: Table, name: Option<string>) returns (chosen: string)
      requires Valid() && WellFormed(t)
      modifies this
      ensures Truthy(name) ==> chosen == Strip(name.value)
      ensures !Truthy(name) ==> FirstFreeDefault(old(browsers).Keys, |old(browsers)|, chosen) && chosen !in old(browsers)
      ensures chosen in browsers && fresh(browsers[chosen]) && browsers == old(browsers)[chosen := browsers[chosen]]
      ensures browsers[chosen].Hist() == Initial(t, t.columns)
      ensures browsers[chosen].changeCbs == [RowViewRefresh, Display(FrameRedraw)]
      ensures browsers[chosen].Valid()
      ensures activeBrowserName == if Truthy(old(activeBrowserName)) then old(activeBrowserName) else Some(chosen)
      ensures Valid()
    {
      if Truthy(name) {
        chosen := name.value;
      } else {
        chosen := GenerateName();
      }
      chosen := Strip(chosen);
      var browser := new DataframeTableBrowser(t);
      browser.AddChangeCallback(Display(FrameRedraw));
      browsers := browsers[chosen := browser];
      if !Truthy(activeBrowserName) {
        activeBrowserName := Some(chosen);
      }
    }

    /**
     * `rename_browser`: both names must be non-empty (after stripping the new one); the entry
     * moves, and its new name becomes active, only when the new name is unused and differs
     * from the current one.
     */
    method RenameBrowser(currentName: Option<string>, newName: string) returns (r: RenameOutcome)
      requires Valid()
      modifies this
      ensures var stripped := Strip(newName);
        && (r == AssertionFailed <==> !Truthy(currentName) || stripped == "")
        && (r == Unchanged <==> Truthy(currentName) && stripped != "" && (stripped in old(browsers) || currentName.value == stripped))
        && (r == MissingName <==>
              Truthy(currentName) && stripped != "" && stripped !in old(browsers) && currentName.value != stripped
              && currentName.value !in old(browsers))
        && (r == Renamed ==>
              && browsers == (old(browsers) - {currentName.value})[stripped := old(browsers)[currentName.value]]
              && activeBrowserName == Some(stripped))
      ensures r != Renamed ==> browsers == old(browsers) && activeBrowserName == old(activeBrowserName)
      ensures Valid()
    {
      var stripped := Strip(newName);
      if !(Truthy(currentName) && stripped != "") {
        return AssertionFailed;
      }
      if stripped !in browsers && currentName.value != stripped {
        if currentName.value !in browsers {
          return MissingName;
        }
        var browser := browsers[currentName.value];
        browsers := (browsers - {currentName.value})[stripped := browser];
        activeBrowserName := Some(stripped);
        return Renamed;
      }
      return Unchanged;
    }

    /** `rename_current_browser`: `rename_browser` applied to the active name. */
    method RenameCurrentBrowser(newName: string) returns (r: RenameOutcome)
      requires Valid()
      modifies this
      ensures !Truthy(old(activeBrowserName)) ==> r == AssertionFailed
      ensures var current, stripped := old(activeBrowserName), Strip(newName);
        && (r == AssertionFailed <==> !Truthy(current) || stripped == "")
        && (r == Unchanged <==> Truthy(current) && stripped != "" && (stripped in old(browsers) || current.value == stripped))
        && (r == Renamed <==> Truthy(current) && stripped != "" && stripped !in old(browsers) && current.value != stripped)
      ensures r == Renamed ==>
        browsers == (old(browsers) - {old(activeBrowserName).value})[Strip(newName) := old(browsers)[old(activeBrowserName).value]]
      ensures r == Renamed ==> activeBrowserName == Some(Strip(newName))
      ensures r != Renamed ==> browsers == old(browsers) && activeBrowserName == old(activeBrowserName)
      ensures r != MissingName
      ensures Valid()
    {
      r := RenameBrowser(activeBrowserName, newName);
    }

    /** The `current_browser` setter: only the name of an existing browser is taken. */
    method SetCurrentBrowser(name: string)
      requires Valid()
      modifies this`activeBrowserName
      ensures activeBrowserName == if name in browsers then Some(name) else old(activeBrowserName)
      ensures Valid()
    {
      if name in browsers {
        activeBrowserName := Some(name);
      }
    }
  }
}
