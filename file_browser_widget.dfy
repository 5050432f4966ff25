/** The filter list, the filter pattern, the filter-mode toggles and the
    location history of the file browser panel,
    plugins/filebrowser/gedit-file-browser-widget.c. Filters are numbered
    as they are added and all of them must let a node through; the glob
    filter is one of them, present exactly while a pattern is set. The
    history is the list of visited locations, newest first, with a cursor
    on the current one. Widget building, menus and the refiltering of the
    store are not modelled. */
module GeditFileBrowserWidget {
  import opened Common
  import Store = GeditFileBrowserStore

  /** What a FilterFunc calls: the glob filter of the widget, or a filter
      function some plugin added, seen as a test on the node. */
  datatype FilterFn = GlobFilter | External(pass: Store.Node -> bool)

  /** A FilterFunc record: its identifier and its function. */
  datatype FilterItem = FilterItem(id: nat, fn: FilterFn)

  /** A Location: the root and the virtual root of the tree. */
  datatype Location = Location(root: string, virtualRoot: string)

  /** The GEDIT_FILE_BROWSER_STORE_FILTER_MODE_* bit a toggle action
      stands for. */
  datatype ModeBit = HideHidden | HideBinary

  /** filter_glob (lines 1286-1312): everything passes when there is no
      pattern, directories and dummies always pass, and any other node
      passes when its name matches the pattern. `matches` stands for
      g_pattern_match_string, which refuses a NULL name. */
  function GlobPasses(pattern: Option<string>, node: Store.Node, matches: (string, string) -> bool): (r: bool)
    ensures pattern.None? ==> r
    ensures node.flags.isDir || node.flags.isDummy ==> r
    ensures pattern.Some? && !node.flags.isDir && !node.flags.isDummy ==>
              (r <==> node.name.Some? && matches(pattern.value, node.name.value))
  {
    if pattern.None? then true
    else if node.flags.isDir || node.flags.isDummy then true
    else node.name.Some? && matches(pattern.value, node.name.value)
  }

  /** What one filter says about a node. */
  function Passes(f: FilterItem, pattern: Option<string>, node: Store.Node, matches: (string, string) -> bool): bool
  {
    match f.fn
    case GlobFilter => GlobPasses(pattern, node, matches)
    case External(pass) => pass(node)
  }

  /** The position of the first filter with identifier `id`, or the
      length of the list when there is none. */
  function FirstWithId(fs: seq<FilterItem>, id: nat): (k: nat)
    ensures k <= |fs| && (k < |fs| ==> fs[k].id == id)
    ensures forall j :: 0 <= j < k ==> fs[j].id != id
  {
    if fs == [] || fs[0].id == id then 0 else 1 + FirstWithId(fs[1..], id)
  }

  /** The filter list after gedit_file_browser_widget_remove_filter (lines
      1795-1813): the first filter with identifier `id` is gone. */
  function WithoutFirst(fs: seq<FilterItem>, id: nat): (r: seq<FilterItem>)
    ensures |r| == (if FirstWithId(fs, id) < |fs| then |fs| - 1 else |fs|)
  {
    if fs == [] then []
    else if fs[0].id == id then fs[1..]
    else [fs[0]] + WithoutFirst(fs[1..], id)
  }

  /** Removing the first filter with an identifier cuts exactly that
      filter out of the list and keeps the others in order; with no such
      filter the list is unchanged. */
  lemma {:induction false} WithoutFirstCutsFirst(fs: seq<FilterItem>, id: nat)
    ensures FirstWithId(fs, id) == |fs| ==> WithoutFirst(fs, id) == fs
    ensures FirstWithId(fs, id) < |fs| ==>
      WithoutFirst(fs, id) == fs[..FirstWithId(fs, id)] + fs[FirstWithId(fs, id) + 1..]
  {
    if fs != [] && fs[0].id != id {
      WithoutFirstCutsFirst(fs[1..], id);
      var k := FirstWithId(fs[1..], id);
      if k < |fs| - 1 {
        assert [fs[0]] + (fs[1..][..k] + fs[1..][k + 1..]) == fs[..k + 1] + fs[k + 2..];
      }
    }
  }

  /** Identifiers strictly increasing along the list. */
  ghost predicate Increasing(fs: seq<FilterItem>)
  {
    forall i, j :: 0 <= i < j < |fs| ==> fs[i].id < fs[j].id
  }

  /** Removing a filter keeps the identifiers increasing and within the
      bounds they had. */
  lemma WithoutFirstIncreasing(fs: seq<FilterItem>, id: nat, top: nat)
    requires Increasing(fs) && forall i :: 0 <= i < |fs| ==> 0 < fs[i].id <= top
    ensures Increasing(WithoutFirst(fs, id))
    ensures forall i :: 0 <= i < |WithoutFirst(fs, id)| ==> 0 < WithoutFirst(fs, id)[i].id <= top
  {
    WithoutFirstCutsFirst(fs, id);
    var k := FirstWithId(fs, id);
    if k < |fs| {
      var r := fs[..k] + fs[k + 1..];
      assert forall i :: 0 <= i < |r| ==> r[i] == fs[if i < k then i else i + 1];
      forall i, j | 0 <= i < j < |r|
        ensures r[i].id < r[j].id
      {
        assert r[i] == fs[if i < k then i else i + 1] && r[j] == fs[if j < k then j else j + 1];
      }
    }
  }

  /** update_filter_mode (lines 1557-1581): switching the toggle action on
      clears its bit in the store's filter mode, switching it off sets it,
      and the other bit is left alone. */
  function UpdatedFilterMode(now: Store.FilterMode, active: bool, bit: ModeBit): (r: Store.FilterMode)
    ensures bit == HideHidden ==> r.hideHidden == !active && r.hideBinary == now.hideBinary
    ensures bit == HideBinary ==> r.hideBinary == !active && r.hideHidden == now.hideHidden
  {
    match bit
    case HideHidden => now.(hideHidden := !active)
    case HideBinary => now.(hideBinary := !active)
  }

  /** The update depends only on the action's new state: applying it twice
      is applying it once, and the two bits are independent. */
  lemma UpdatedFilterModeIdempotent(now: Store.FilterMode, a: bool, b: bool)
    ensures UpdatedFilterMode(UpdatedFilterMode(now, a, HideHidden), a, HideHidden) == UpdatedFilterMode(now, a, HideHidden)
    ensures UpdatedFilterMode(UpdatedFilterMode(now, a, HideHidden), b, HideBinary)
            == UpdatedFilterMode(UpdatedFilterMode(now, b, HideBinary), a, HideHidden)
  {
  }

  /** The pattern set_filter_pattern_real (lines 1583-1648) stores: an
      empty pattern means no pattern. */
  function NormalPattern(pattern: Option<string>): (r: Option<string>)
    ensures r.Some? <==> pattern.Some? && pattern.value != ""
    ensures r.Some? ==> r == pattern
  {
    if pattern.Some? && pattern.value == "" then None else pattern
  }

  /** Whether the "DirectoryPrevious" action is sensitive (lines 1990-1998):
      the current location has an older one after it. */
  function PreviousSensitive(locations: seq<Location>, current: Option<nat>): (r: bool)
    ensures r <==> current.Some? && current.value + 1 < |locations|
  {
    current.Some? && current.value + 1 < |locations|
  }

  /** Whether the "DirectoryNext" action is sensitive (lines 2000-2008):
      the current location has a newer one before it. */
  function NextSensitive(locations: seq<Location>, current: Option<nat>): (r: bool)
    ensures r <==> current.Some? && 0 < current.value
  {
    current.Some? && 0 < current.value
  }

  /** What jump_to_location (lines 1446-1521) accepts: a listed target on
      the side of the current location its menu offers, older ones for
      "previous" and newer ones otherwise; without a current location the
      walk starts at the newest. */
  predicate CanJump(locations: seq<Location>, current: Option<nat>, target: nat, previous: bool)
  {
    && target < |locations|
    && (current.Some? ==> if previous then current.value <= target else target <= current.value)
    && (current.None? ==> previous || target == 0)
  }

  /** "DirectoryPrevious" is sensitive exactly when there is a current
      location and a jump backwards can reach a location other than it. */
  lemma PreviousSensitiveIffOlder(locations: seq<Location>, current: Option<nat>)
    ensures PreviousSensitive(locations, current) <==>
              current.Some? && exists t :: CanJump(locations, current, t, true) && t != current.value
  {
    if PreviousSensitive(locations, current) {
      assert CanJump(locations, current, current.value + 1, true);
    }
  }

  /** "DirectoryNext" is sensitive exactly when there is a current location
      (one of the list, as in a valid widget) and a jump forwards can reach
      a location other than it. */
  lemma NextSensitiveIffNewer(locations: seq<Location>, current: Option<nat>)
    requires current.Some? ==> current.value < |locations|
    ensures NextSensitive(locations, current) <==>
              current.Some? && exists t :: CanJump(locations, current, t, false) && t != current.value
  {
    if NextSensitive(locations, current) {
      assert CanJump(locations, current, current.value - 1, false);
    }
  }

  class FileBrowserWidget {
    /** filter_funcs, in the order they were added. */
    var filters: seq<FilterItem>
    /** filter_id: the last identifier handed out. */
    var filterId: nat
    /** glob_filter_id: the identifier of the glob filter, 0 for none. */
    var globFilterId: nat
    /** filter_pattern_str. */
    var filterPattern: Option<string>
    /** locations, newest first. */
    var locations: seq<Location>
    /** current_location, as an index into `locations`. */
    var current: Option<nat>

    ghost predicate Valid()
      reads this
    {
      && Increasing(filters)
      && (forall i :: 0 <= i < |filters| ==> 0 < filters[i].id <= filterId)
      && globFilterId <= filterId
      && (globFilterId != 0 <==> filterPattern.Some?)
      && (filterPattern.Some? ==> filterPattern.value != "")
      && (current.Some? ==> current.value < |locations|)
    }

    /** The widget as gedit_file_browser_widget_init leaves it: no filters,
        no pattern and no history. */
    constructor ()
      ensures Valid()
      ensures filters == [] && filterId == 0 && globFilterId == 0 && filterPattern == None
      ensures locations == [] && current == None
    {
      filters := [];
      filterId := 0;
      globFilterId := 0;
      filterPattern := None;
      locations := [];
      current := None;
    }

    /** Whether the widget lets a node through: filter_real (lines
        990-1005) asks every filter in turn and stops at the first that
        says no. */
    method FilterReal(node: Store.Node, matches: (string, string) -> bool) returns (b: bool)
      ensures b <==> forall i :: 0 <= i < |filters| ==> Passes(filters[i], filterPattern, node, matches)
    {
      var i := 0;
      while i < |filters|
        invariant 0 <= i <= |filters|
        invariant forall j :: 0 <= j < i ==> Passes(filters[j], filterPattern, node, matches)
      {
        if !Passes(filters[i], filterPattern, node, matches) {
          return false;
        }
        i := i + 1;
      }
      return true;
    }

    /** gedit_file_browser_widget_add_filter (lines 1775-1793) with
        filter_func_new (lines 232-245): the filter gets the next
        identifier and goes to the end of the list. */
    method AddFilter(fn: FilterFn) returns (id: nat)
      requires Valid()
      modifies this`filters, this`filterId
      ensures Valid()
      ensures id == old(filterId) + 1 && filterId == id
      ensures filters == old(filters) + [FilterItem(id, fn)]
      ensures forall i :: 0 <= i < |old(filters)| ==> old(filters)[i].id < id
    {
      filterId := filterId + 1;
      id := filterId;
      filters := filters + [FilterItem(id, fn)];
    }

    /** gedit_file_browser_widget_remove_filter (lines 1795-1813). */
    method RemoveFilter(id: nat)
      requires Valid()
      modifies this`filters
      ensures Valid()
      ensures filters == WithoutFirst(old(filters), id)
    {
      var i := 0;
      while i < |filters| && filters[i].id != id
        invariant 0 <= i <= FirstWithId(filters, id)
      {
        i := i + 1;
      }
      WithoutFirstIncreasing(filters, id, filterId);
      WithoutFirstCutsFirst(filters, id);
      if i < |filters| {
        filters := filters[..i] + filters[i + 1..];
      }
    }

    /** set_filter_pattern_real (lines 1583-1648): an empty pattern counts
        as none and an unchanged pattern changes nothing; otherwise the
        pattern is stored, the glob filter is removed when the pattern goes
        away and added when one arrives. */
    method SetFilterPattern(pattern: Option<string>)
      requires Valid()
      modifies this`filters, this`filterId, this`globFilterId, this`filterPattern
      ensures Valid()
      ensures filterPattern == NormalPattern(pattern)
      ensures old(filterPattern) == NormalPattern(pattern) ==>
                filters == old(filters) && globFilterId == old(globFilterId) && filterId == old(filterId)
      ensures old(filterPattern).Some? && NormalPattern(pattern).None? ==>
                filters == WithoutFirst(old(filters), old(globFilterId)) && globFilterId == 0
      ensures old(filterPattern).None? && NormalPattern(pattern).Some? ==>
                filters == old(filters) + [FilterItem(old(filterId) + 1, GlobFilter)] && globFilterId == old(filterId) + 1
      ensures old(filterPattern).Some? && NormalPattern(pattern).Some? ==>
                filters == old(filters) && globFilterId == old(globFilterId)
    {
      var p := NormalPattern(pattern);
      if p.None? && filterPattern.None? {
        return;
      }
      if p.Some? && filterPattern.Some? && p.value == filterPattern.value {
        return;
      }
      if p.None? {
        if globFilterId != 0 {
          RemoveFilter(globFilterId);
          globFilterId := 0;
        }
      } else {
        if globFilterId == 0 {
          globFilterId := AddFilter(GlobFilter);
        }
      }
      filterPattern := p;
    }

    /** clear_next_locations (lines 1523-1555): every location newer than
        the current one is dropped. */
    method ClearNextLocations()
      requires Valid()
      modifies this`locations, this`current
      ensures Valid()
      ensures old(current).None? ==> locations == old(locations) && current == None
      ensures old(current).Some? ==> locations == old(locations)[old(current).value..] && current == Some(0)
      ensures !NextSensitive(locations, current)
      ensures PreviousSensitive(locations, current) == old(PreviousSensitive(locations, current))
    {
      if current.None? {
        return;
      }
      ghost var start := current.value;
      while current.value > 0
        invariant current.Some? && current.value <= start
        invariant locations == old(locations)[..current.value] + old(locations)[start..]
        decreases current.value
      {
        var c := current.value;
        assert locations[..c - 1] == old(locations)[..c - 1];
        assert locations[c..] == old(locations)[start..];
        locations := locations[..c - 1] + locations[c..];
        current := Some(c - 1);
      }
      assert locations == old(locations)[start..];
    }

    /** on_virtual_root_changed (lines 1925-1967) outside a jump through the
        history: the newer locations are dropped, the new location is put
        in front and becomes the current one. */
    method PushLocation(loc: Location)
      requires Valid()
      modifies this`locations, this`current
      ensures Valid()
      ensures old(current).None? ==> locations == [loc] + old(locations)
      ensures old(current).Some? ==> locations == [loc] + old(locations)[old(current).value..]
      ensures current == Some(0) && !NextSensitive(locations, current)
      ensures PreviousSensitive(locations, current) <==> old(current).Some? || old(locations) != []
    {
      if current.Some? {
        ClearNextLocations();
      }
      locations := [loc] + locations;
      current := Some(0);
    }

    /** jump_to_location (lines 1446-1521): the cursor walks one location
        at a time, towards older locations for "previous" and newer ones
        otherwise, starting at the newest when there is no current
        location, until it reaches `target`. The caller picks the target
        from the matching menu, that is, on that side of the cursor. */
    method JumpToLocation(target: nat, previous: bool)
      requires Valid() && CanJump(locations, current, target, previous)
      modifies this`current
      ensures Valid() && current == Some(target)
      ensures PreviousSensitive(locations, current) <==> target + 1 < |locations|
      ensures NextSensitive(locations, current) <==> 0 < target
    {
      while current != Some(target)
        invariant Valid()
        invariant current.Some? ==> if previous then current.value <= target else target <= current.value
        invariant current.None? ==> previous || target == 0
        decreases if current.None? then |locations| + 1
                  else if previous then target - current.value else current.value - target
      {
        if current.None? {
          current := Some(0);
        } else if previous {
          current := Some(current.value + 1);
        } else {
          current := Some(current.value - 1);
        }
      }
    }
  }
}
