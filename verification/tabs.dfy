/** The tabbed-container node of the editor: its attribute bag (an ordered
    list of tabs plus an active index), the handlers of its node view, and
    the `insertTabs` command.

    Every handler returns the attribute bag after `updateAttributes` merged
    its partial update into it: fields the handler does not name are kept. */
module Tabs {
  import opened Wrappers

  datatype Tab = Tab(title: string, content: string)

  const EmptyTab := Tab("", "")

  /** The node's stored attributes; either may be missing (`null`). */
  datatype Attrs = Attrs(tabs: Option<seq<Tab>>, active: Option<int>)

  /** Defaults declared by the node type: one empty tab, active index 0. */
  const DefaultAttrs := Attrs(Some([EmptyTab]), Some(0))

  /** `node.attrs.tabs || []` (an array, even an empty one, is truthy). */
  function TabList(a: Attrs): seq<Tab> {
    a.tabs.GetOr([])
  }

  /** `node.attrs.active || 0`: a missing active index reads as 0 (a stored
      0 is falsy too, and also reads as 0). */
  function ActiveIndex(a: Attrs): int {
    a.active.GetOr(0)
  }

  /** The displayed index `min(active, max(len - 1, 0))`. */
  function SafeIndex(a: Attrs): (r: int)
    ensures ActiveIndex(a) >= 0 && |TabList(a)| > 0 ==> 0 <= r < |TabList(a)|
    ensures ActiveIndex(a) >= 0 && |TabList(a)| == 0 ==> r == 0
    ensures ActiveIndex(a) < |TabList(a)| ==> r == ActiveIndex(a)
    ensures 0 < |TabList(a)| <= ActiveIndex(a) ==> r == |TabList(a)| - 1
  {
    var last := if |TabList(a)| - 1 > 0 then |TabList(a)| - 1 else 0;
    if ActiveIndex(a) < last then ActiveIndex(a) else last
  }

  /** `tabs[safeIndex] || tabs[0]`: the tab whose content the view shows. */
  function ActiveTab(a: Attrs): (r: Option<Tab>)
    ensures r.Some? <==> |TabList(a)| > 0
    ensures r.Some? && ActiveIndex(a) >= 0 ==> r.value == TabList(a)[SafeIndex(a)]
    ensures r.Some? && ActiveIndex(a) < 0 ==> r.value == TabList(a)[0]
  {
    var tabs := TabList(a);
    var i := SafeIndex(a);
    if 0 <= i < |tabs| then Some(tabs[i])
    else if |tabs| > 0 then Some(tabs[0])
    else None
  }

  /** The seeding effect: an empty list is replaced by one empty tab with
      active index 0; any other bag is left alone. */
  function Seed(a: Attrs): (r: Attrs)
    ensures |TabList(a)| == 0 ==> TabList(r) == [EmptyTab] && ActiveIndex(r) == 0
    ensures |TabList(a)| > 0 ==> r == a
  {
    if |TabList(a)| == 0 then Attrs(Some([EmptyTab]), Some(0)) else a
  }

  function Select(a: Attrs, index: int): (r: Attrs)
    ensures TabList(r) == TabList(a) && ActiveIndex(r) == index
    ensures 0 <= index < |TabList(a)| ==> SafeIndex(r) == index
  {
    a.(active := Some(index))
  }

  /** Shared shape of the title and content handlers: `tabs.map` replacing
      the tab at `index` by `edit` of it. */
  function MapAt(tabs: seq<Tab>, index: int, edit: Tab -> Tab): (r: seq<Tab>)
    ensures |r| == |tabs|
    ensures forall i :: 0 <= i < |tabs| && i != index ==> r[i] == tabs[i]
    ensures 0 <= index < |tabs| ==> r[index] == edit(tabs[index])
  {
    seq(|tabs|, i requires 0 <= i < |tabs| => if i == index then edit(tabs[i]) else tabs[i])
  }

  function TitleChange(a: Attrs, index: int, value: string): (r: Attrs)
    ensures r.active == a.active
    ensures |TabList(r)| == |TabList(a)|
    ensures forall i :: 0 <= i < |TabList(a)| && i != index ==> TabList(r)[i] == TabList(a)[i]
    ensures 0 <= index < |TabList(a)| ==>
              TabList(r)[index] == Tab(value, TabList(a)[index].content)
  {
    a.(tabs := Some(MapAt(TabList(a), index, (t: Tab) => t.(title := value))))
  }

  function ContentChange(a: Attrs, index: int, value: string): (r: Attrs)
    ensures r.active == a.active
    ensures |TabList(r)| == |TabList(a)|
    ensures forall i :: 0 <= i < |TabList(a)| && i != index ==> TabList(r)[i] == TabList(a)[i]
    ensures 0 <= index < |TabList(a)| ==>
              TabList(r)[index] == Tab(TabList(a)[index].title, value)
  {
    a.(tabs := Some(MapAt(TabList(a), index, (t: Tab) => t.(content := value))))
  }

  function AddTab(a: Attrs): (r: Attrs)
    ensures |TabList(r)| == |TabList(a)| + 1
    ensures TabList(r)[..|TabList(a)|] == TabList(a) && TabList(r)[|TabList(a)|] == EmptyTab
    ensures ActiveIndex(r) == |TabList(r)| - 1
  {
    var next := TabList(a) + [EmptyTab];
    Attrs(Some(next), Some(|next| - 1))
  }

  /** `tabs.filter((_, i) => i !== index)`: exactly the element at
      `index` is dropped, the others keep their order. */
  function RemoveAt(tabs: seq<Tab>, index: int): (r: seq<Tab>)
    ensures 0 <= index < |tabs| ==>
              && |r| == |tabs| - 1
              && (forall i :: 0 <= i < index ==> r[i] == tabs[i])
              && (forall i :: index <= i < |r| ==> r[i] == tabs[i + 1])
    ensures !(0 <= index < |tabs|) ==> r == tabs
  {
    if 0 <= index < |tabs| then tabs[..index] + tabs[index + 1..] else tabs
  }

  /** Deleting a tab. When nothing would remain the bag is unchanged;
      otherwise the active index moves down one step (not below 0) when the
      deleted tab is at or before it. The raw stored index is used, not the
      clamped one. */
  function DeleteTab(a: Attrs, index: int): (r: Attrs)
    ensures |RemoveAt(TabList(a), index)| == 0 ==> r == a
    ensures |RemoveAt(TabList(a), index)| > 0 ==>
              && TabList(r) == RemoveAt(TabList(a), index)
              && ActiveIndex(r) == (if index <= ActiveIndex(a)
                                    then (if ActiveIndex(a) - 1 > 0 then ActiveIndex(a) - 1 else 0)
                                    else ActiveIndex(a))
  {
    var next := RemoveAt(TabList(a), index);
    if |next| == 0 then a
    else
      var active := ActiveIndex(a);
      var nextIndex := if index <= active then (if 0 > active - 1 then 0 else active - 1) else active;
      Attrs(Some(next), Some(nextIndex))
  }

  /** `insertTabs(tabs)`: the attributes of the inserted node. A missing or
      empty list becomes one empty tab; the active index is always 0. */
  function InsertTabs(tabs: Option<seq<Tab>>): (r: Attrs)
    ensures ActiveIndex(r) == 0 && r.active == Some(0)
    ensures tabs.Some? && |tabs.value| > 0 ==> TabList(r) == tabs.value
    ensures tabs.None? || |tabs.value| == 0 ==> TabList(r) == [EmptyTab]
  {
    var safeTabs := if tabs.Some? && |tabs.value| > 0 then tabs.value else [EmptyTab];
    Attrs(Some(safeTabs), Some(0))
  }

  // ---------------------------------------------------------------------------
  // The active-index invariant
  // ---------------------------------------------------------------------------

  /** A well-formed bag: a non-empty list and an active index inside it. */
  predicate Valid(a: Attrs) {
    a.tabs.Some? && |a.tabs.value| > 0 && 0 <= ActiveIndex(a) < |a.tabs.value|
  }

  /** The defaults, seeding and `insertTabs` all produce a valid bag. */
  lemma CreationIsValid(a: Attrs, tabs: Option<seq<Tab>>)
    ensures Valid(DefaultAttrs)
    ensures |TabList(a)| == 0 ==> Valid(Seed(a))
    ensures Valid(InsertTabs(tabs))
  {
  }

  /** Every handler of the view, called with an index the view can produce
      (a rendered tab), keeps a valid bag valid. */
  lemma HandlersPreserveValid(a: Attrs, index: int, value: string)
    requires Valid(a)
    requires 0 <= index < |TabList(a)|
    ensures Valid(Select(a, index))
    ensures Valid(TitleChange(a, index, value))
    ensures Valid(ContentChange(a, index, value))
    ensures Valid(AddTab(a))
    ensures Valid(DeleteTab(a, index))
  {
    var tabs := TabList(a);
    if |tabs| > 1 {
      var r := DeleteTab(a, index);
      assert |RemoveAt(tabs, index)| == |tabs| - 1;
      assert ActiveIndex(r) < |tabs| - 1;
    }
  }

  /** Deleting keeps every other tab, in order, and the active index follows
      the tab it pointed at unless that tab was the one deleted. */
  lemma DeleteKeepsOthers(a: Attrs, index: int)
    requires Valid(a)
    requires 0 <= index < |TabList(a)| && |TabList(a)| > 1
    ensures var r := DeleteTab(a, index);
            && |TabList(r)| == |TabList(a)| - 1
            && (forall i :: 0 <= i < index ==> TabList(r)[i] == TabList(a)[i])
            && (forall i :: index < i < |TabList(a)| ==> TabList(r)[i - 1] == TabList(a)[i])
            && (index != ActiveIndex(a) ==> TabList(r)[ActiveIndex(r)] == TabList(a)[ActiveIndex(a)])
  {
  }

  /** With three tabs, deleting the active last one leaves two tabs and
      selects the new last one. */
  lemma DeleteLastOfThree(t0: Tab, t1: Tab, t2: Tab)
    ensures var r := DeleteTab(Attrs(Some([t0, t1, t2]), Some(2)), 2);
            TabList(r) == [t0, t1] && ActiveIndex(r) == 1
  {
    assert [t0, t1, t2][..2] + [t0, t1, t2][3..] == [t0, t1];
  }

  /** The last remaining tab cannot be deleted. */
  lemma DeleteOnlyTabIsNoOp(a: Attrs, index: int)
    requires |TabList(a)| == 1
    ensures index == 0 ==> DeleteTab(a, index) == a
  {
  }
}
