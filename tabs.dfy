/**
 * The filter tabs of the certificates and projects sections: the active filter starts at
 * `'all'`, a tab click sets it, and a tab renders selected when it equals the filter.
 */
module Tabs {
  import opened JsCollections

  class FilterTabs {
    var activeFilter: string

    constructor ()
      ensures activeFilter == "all"
    {
      activeFilter := "all";
    }

    /** A click on the tab for `category`. */
    method SelectTab(category: string)
      modifies this
      ensures activeFilter == category
    {
      activeFilter := category;
    }
  }

  /** The positions of the tabs rendered selected. */
  function SelectedTabs(categories: seq<string>, activeFilter: string): set<nat> {
    set i: nat | i < |categories| && categories[i] == activeFilter
  }

  /**
   * With distinct categories at most one tab is selected, and exactly one when the filter
   * is one of them.
   */
  lemma {:induction false} SelectedTabsOfDistinct(categories: seq<string>, activeFilter: string)
    requires NoDuplicates(categories)
    ensures |SelectedTabs(categories, activeFilter)| <= 1
    ensures |SelectedTabs(categories, activeFilter)| == 1 <==> activeFilter in categories
  {
    if activeFilter in categories {
      var k :| 0 <= k < |categories| && categories[k] == activeFilter;
      assert SelectedTabs(categories, activeFilter) == {k};
    } else {
      assert SelectedTabs(categories, activeFilter) == {};
    }
  }

  /** After any click on a tab of the list, exactly one tab of a distinct list is selected. */
  method ClickScenario(tabs: FilterTabs, categories: seq<string>, k: nat)
    requires NoDuplicates(categories) && k < |categories|
    modifies tabs
    ensures |SelectedTabs(categories, tabs.activeFilter)| == 1
  {
    tabs.SelectTab(categories[k]);
    SelectedTabsOfDistinct(categories, tabs.activeFilter);
  }
}
